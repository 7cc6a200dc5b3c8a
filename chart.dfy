/** `ChartState` of midi_to_tja.py (lines 60-194).  MIDI_to_TJA_balloon.py
    (lines 42-172) carries the same class with the note symbol fixed to '7';
    here the symbol (the global `NOTE_SYMBOL`) is a parameter. */
module ChartScan {
  import opened Events
  import opened Quantize

  // ---------------------------------------------------------------------
  // Note symbols

  const KnownNotes := "012345679ABCDFGHI"
  const LongNotes := "5679DHI"
  const BalloonNotes := "79D"

  predicate IsKnownNote(sym: char)
  {
    sym in KnownNotes
  }

  /** Long notes are known notes. */
  predicate IsLongNote(sym: char)
    ensures IsLongNote(sym) ==> IsKnownNote(sym)
  {
    sym in LongNotes
  }

  /** Balloon notes are long notes. */
  predicate IsBalloonNote(sym: char)
    ensures IsBalloonNote(sym) ==> IsLongNote(sym)
  {
    sym in BalloonNotes
  }

  /** `bpm2tempo(120)`: microseconds per beat at 120 beats per minute. */
  const DefaultUsecPerBeat: nat := 500000

  // ---------------------------------------------------------------------
  // Balloon records

  /** A note-on event held in `balloons`: its pitch and the two time fields
      the scan writes into it.  A negative `usecEnd` marks the record open
      (the scan writes -1 when it opens one). */
  datatype Balloon = Balloon(note: nat, usecStart: int, usecEnd: int)

  predicate LastOpen(bs: seq<Balloon>)
  {
    |bs| > 0 && bs[|bs| - 1].usecEnd < 0
  }

  /** Only the last record may still be open. */
  predicate OnlyLastOpen(bs: seq<Balloon>)
  {
    forall k :: 0 <= k < |bs| - 1 ==> bs[k].usecEnd >= 0
  }

  function CloseLast(bs: seq<Balloon>, usec: int): seq<Balloon>
    requires |bs| > 0
  {
    bs[..|bs| - 1] + [bs[|bs| - 1].(usecEnd := usec)]
  }

  // ---------------------------------------------------------------------
  // The state, as a value

  /** The fields of a `ChartState` (`i_measure_begin` is never read and is
      left out). */
  datatype Timing = Timing(
    ticksPerBeat: Pos,
    tsignUpper: nat,
    tsignLower: Pos,
    usecPerBeat: nat,
    tickMeasureBegin: nat,
    tickCheckpoint: int,
    usecCheckpoint: int,
    balloons: seq<Balloon>)
  {
    /** `get_ticks_per_measure`: the floor of
        `ticks_per_beat * 4 * upper / lower`, but never below 1. */
    function TicksPerMeasure(): (r: int)
      ensures r >= 1
      ensures r == 1 || r * tsignLower <= ticksPerBeat * 4 * tsignUpper < (r + 1) * tsignLower
    {
      var n := ticksPerBeat * 4 * tsignUpper / tsignLower;
      if n >= 1 then n else 1
    }

    /** `get_tick_measure_end`. */
    function TickMeasureEnd(): (r: int)
      ensures r > tickMeasureBegin
    {
      tickMeasureBegin + TicksPerMeasure()
    }

    /** `get_usec_at`: the checkpoint time plus the floor of the ticks since
        the checkpoint scaled by the tempo. */
    function UsecAt(tick: int): (r: int)
      ensures tick == tickCheckpoint ==> r == usecCheckpoint
      ensures (r - usecCheckpoint) * ticksPerBeat <= (tick - tickCheckpoint) * usecPerBeat
      ensures (tick - tickCheckpoint) * usecPerBeat < (r - usecCheckpoint + 1) * ticksPerBeat
    {
      usecCheckpoint + (tick - tickCheckpoint) * usecPerBeat / ticksPerBeat
    }
  }

  /** A fresh `ChartState(ticks_per_beat)`: 4/4, 120 BPM, everything at 0. */
  function InitialTiming(ticksPerBeat: Pos): Timing
  {
    Timing(ticksPerBeat, 4, 4, DefaultUsecPerBeat, 0, 0, 0, [])
  }

  /** Later ticks never map to earlier times. */
  lemma UsecAtMonotone(t: Timing, x: int, y: int)
    requires x <= y
    ensures t.UsecAt(x) <= t.UsecAt(y)
  {
    var a := (x - t.tickCheckpoint) * t.usecPerBeat;
    var b := (y - t.tickCheckpoint) * t.usecPerBeat;
    var d := (y - x) * t.usecPerBeat;
    assert d >= 0;
    assert b == a + d;
    DivMonotone(a, b, t.ticksPerBeat);
  }

  lemma DivMonotone(a: int, b: int, d: int)
    requires d > 0 && a <= b
    ensures a / d <= b / d
  {
    assert d * (a / d) <= a;
    assert b < d * (b / d) + d;
    if a / d > b / d {
      MulGrows(d, a / d - b / d);
    }
  }

  /** `advance_usec` followed by a tempo change: re-anchoring at `tick`
      keeps the time of `tick`, and whatever the new tempo, no later tick
      maps to an earlier time than `tick` did. */
  lemma {:induction false} ReanchorKeepsTime(t: Timing, tick: int, tempo: nat, later: int)
    requires tick <= later
    ensures var t' := t.(usecCheckpoint := t.UsecAt(tick), tickCheckpoint := tick, usecPerBeat := tempo);
      t'.UsecAt(tick) == t.UsecAt(tick) && t'.UsecAt(later) >= t.UsecAt(tick)
  {
    var t' := t.(usecCheckpoint := t.UsecAt(tick), tickCheckpoint := tick, usecPerBeat := tempo);
    UsecAtMonotone(t', tick, later);
  }

  // ---------------------------------------------------------------------
  // What `scan_measure` does to the state, event by event

  /** The state change of one event in the loop of `scan_measure`
      (midi_to_tja.py:146-169). */
  function ApplyEvent(t: Timing, e: TimedEvent, sym: char): Timing
  {
    match e.msg
    case TimeSignature(n, d) => t.(tsignUpper := n, tsignLower := d)
    case SetTempo(tempo) =>
      t.(usecCheckpoint := t.UsecAt(e.tick), tickCheckpoint := e.tick, usecPerBeat := tempo)
    case NoteOn(_, note, _) =>
      if !IsLongNote(sym) || LastOpen(t.balloons) then t
      else t.(balloons := t.balloons + [Balloon(note, t.UsecAt(e.tick), -1)])
    case NoteOff(_, _) =>
      if IsLongNote(sym) && LastOpen(t.balloons) then t.(balloons := CloseLast(t.balloons, t.UsecAt(e.tick)))
      else t
  }

  /** The state changes of a run of events, in order. */
  function ApplyEvents(t: Timing, es: seq<TimedEvent>, sym: char): (r: Timing)
    ensures r.ticksPerBeat == t.ticksPerBeat && r.tickMeasureBegin == t.tickMeasureBegin
  {
    if es == [] then t else ApplyEvent(ApplyEvents(t, es[..|es| - 1], sym), es[|es| - 1], sym)
  }

  lemma ApplyEventsSnoc(t: Timing, es: seq<TimedEvent>, e: TimedEvent, sym: char)
    ensures ApplyEvents(t, es + [e], sym) == ApplyEvent(ApplyEvents(t, es, sym), e, sym)
  {
    assert (es + [e])[..|es|] == es;
  }

  /** The state after one more event of a run. */
  lemma ApplyEventsNext(t: Timing, events: seq<TimedEvent>, lo: nat, i: nat, sym: char)
    requires lo <= i < |events|
    ensures ApplyEvents(t, events[lo..i + 1], sym) == ApplyEvent(ApplyEvents(t, events[lo..i], sym), events[i], sym)
  {
    assert events[lo..i + 1] == events[lo..i] + [events[i]];
    ApplyEventsSnoc(t, events[lo..i], events[i], sym);
  }

  /** The balloon bookkeeping keeps every record but the last one closed,
      never rewrites a closed record, and never drops a record. */
  lemma {:induction false} BalloonsKeepOnlyLastOpen(t: Timing, es: seq<TimedEvent>, sym: char)
    requires OnlyLastOpen(t.balloons)
    ensures var bs := ApplyEvents(t, es, sym).balloons;
      && OnlyLastOpen(bs)
      && |bs| >= |t.balloons|
      && forall k :: 0 <= k < |t.balloons| && t.balloons[k].usecEnd >= 0 ==> bs[k] == t.balloons[k]
  {
    if es != [] {
      var init := es[..|es| - 1];
      BalloonsKeepOnlyLastOpen(t, init, sym);
      BalloonStep(ApplyEvents(t, init, sym), es[|es| - 1], sym);
    }
  }

  /** One event keeps every record but the last one closed and keeps the
      closed records. */
  lemma BalloonStep(x: Timing, e: TimedEvent, sym: char)
    requires OnlyLastOpen(x.balloons)
    ensures var bs := ApplyEvent(x, e, sym).balloons;
      && OnlyLastOpen(bs)
      && |bs| >= |x.balloons|
      && forall k :: 0 <= k < |x.balloons| && x.balloons[k].usecEnd >= 0 ==> bs[k] == x.balloons[k]
  {
  }

  /** Without a long note symbol the scan opens no balloon record. */
  lemma {:induction false} NoBalloonsWithoutLongNote(t: Timing, es: seq<TimedEvent>, sym: char)
    requires !IsLongNote(sym)
    ensures ApplyEvents(t, es, sym).balloons == t.balloons
  {
    if es != [] {
      NoBalloonsWithoutLongNote(t, es[..|es| - 1], sym);
    }
  }

  /** The time signature after a run of events is that of its last
      `time_signature` event, or the one before the run if it has none. */
  lemma {:induction false} SignatureAfterEvents(t: Timing, es: seq<TimedEvent>, sym: char)
    ensures var r := ApplyEvents(t, es, sym);
      && ((forall k :: 0 <= k < |es| ==> !es[k].msg.TimeSignature?) ==>
            r.tsignUpper == t.tsignUpper && r.tsignLower == t.tsignLower)
      && (forall k | 0 <= k < |es| && es[k].msg.TimeSignature?
            && (forall j :: k < j < |es| ==> !es[j].msg.TimeSignature?) ::
            r.tsignUpper == es[k].msg.numerator && r.tsignLower == es[k].msg.denominator)
  {
    if es != [] {
      var init, e := es[..|es| - 1], es[|es| - 1];
      SignatureAfterEvents(t, init, sym);
      var r, x := ApplyEvents(t, es, sym), ApplyEvents(t, init, sym);
      assert r == ApplyEvent(x, e, sym);
      if e.msg.TimeSignature? {
        forall k | 0 <= k < |es| && es[k].msg.TimeSignature? && (forall j :: k < j < |es| ==> !es[j].msg.TimeSignature?)
          ensures k == |es| - 1
        {
        }
      } else {
        assert r.tsignUpper == x.tsignUpper && r.tsignLower == x.tsignLower;
        forall k | 0 <= k < |es| && es[k].msg.TimeSignature? && (forall j :: k < j < |es| ==> !es[j].msg.TimeSignature?)
          ensures r.tsignUpper == es[k].msg.numerator && r.tsignLower == es[k].msg.denominator
        {
          assert k < |init| && init[k] == es[k];
          assert forall j :: k < j < |init| ==> !init[j].msg.TimeSignature?;
        }
      }
    }
  }

  /** A run with no tempo change leaves tempo and checkpoint alone. */
  lemma {:induction false} TempoAfterEvents(t: Timing, es: seq<TimedEvent>, sym: char)
    requires forall k :: 0 <= k < |es| ==> !es[k].msg.SetTempo?
    ensures var r := ApplyEvents(t, es, sym);
      r.usecPerBeat == t.usecPerBeat && r.tickCheckpoint == t.tickCheckpoint && r.usecCheckpoint == t.usecCheckpoint
  {
    if es != [] {
      TempoAfterEvents(t, es[..|es| - 1], sym);
    }
  }

  /** What the balloon count relies on once event time has reached tick
      `now`: the checkpoint is not in the future and its time is not
      negative, every record starts at a non-negative time, every closed
      record ends no earlier than it starts, only the last one may be open,
      and an open one started no later than `now`. */
  ghost predicate BalloonsSound(t: Timing, now: int)
  {
    var bs := t.balloons;
    && t.tickCheckpoint <= now
    && 0 <= t.usecCheckpoint
    && RecordsSound(bs)
    && (forall k | 0 <= k < |bs| :: 0 <= bs[k].usecStart)
    && (LastOpen(bs) ==> bs[|bs| - 1].usecStart <= t.UsecAt(now))
  }

  /** Only the last record may be open, and every closed one ends no
      earlier than it starts, at a non-negative time. */
  ghost predicate RecordsSound(bs: seq<Balloon>)
  {
    && OnlyLastOpen(bs)
    && forall k | 0 <= k < |bs| && bs[k].usecEnd >= 0 :: 0 <= bs[k].usecStart <= bs[k].usecEnd
  }

  lemma SoundLater(t: Timing, now: int, later: int)
    requires BalloonsSound(t, now) && now <= later
    ensures BalloonsSound(t, later)
  {
    UsecAtMonotone(t, now, later);
  }

  /** One event at or after `now` keeps the balloon records sound. */
  lemma ApplyEventSound(t: Timing, e: TimedEvent, sym: char, now: int)
    requires BalloonsSound(t, now) && now <= e.tick
    ensures BalloonsSound(ApplyEvent(t, e, sym), e.tick)
  {
    SoundLater(t, now, e.tick);
    UsecAtMonotone(t, t.tickCheckpoint, e.tick);
    var bs := t.balloons;
    match e.msg
    case TimeSignature(_, _) =>
    case SetTempo(tempo) =>
      ReanchorKeepsTime(t, e.tick, tempo, e.tick);
    case NoteOn(_, note, _) =>
      if IsLongNote(sym) && !LastOpen(bs) {
        var bs' := bs + [Balloon(note, t.UsecAt(e.tick), -1)];
        assert forall k | 0 <= k < |bs| :: bs'[k] == bs[k];
      }
    case NoteOff(_, _) =>
      if IsLongNote(sym) && LastOpen(bs) {
        var bs' := CloseLast(bs, t.UsecAt(e.tick));
        assert forall k | 0 <= k < |bs| - 1 :: bs'[k] == bs[k];
      }
  }

  /** A run of events in tick order, none before `now`, keeps the balloon
      records sound. */
  lemma {:induction false} ApplyEventsSound(t: Timing, es: seq<TimedEvent>, sym: char, now: int)
    requires BalloonsSound(t, now) && NonDecreasing(es)
    requires forall k | 0 <= k < |es| :: now <= es[k].tick
    ensures BalloonsSound(ApplyEvents(t, es, sym), if es == [] then now else es[|es| - 1].tick)
  {
    if es != [] {
      var init := es[..|es| - 1];
      ApplyEventsSound(t, init, sym, now);
      var now' := if init == [] then now else init[|init| - 1].tick;
      ApplyEventSound(ApplyEvents(t, init, sym), es[|es| - 1], sym, now');
    }
  }

  // ---------------------------------------------------------------------
  // Measure stepping of `scan_chart`, as a function of the state

  /** The `while` loop of `scan_chart` (midi_to_tja.py:182-185): while the
      current measure ends at or before `tick`, flush the pending range
      `[imb, i)` and advance.  Gives the state and the new start of the
      pending range. */
  function StepMeasures(t: Timing, events: seq<TimedEvent>, imb: nat, i: nat, tick: nat, sym: char): (r: (Timing, nat))
    requires imb <= i <= |events|
    ensures imb <= r.1 <= i
    ensures r.0.TickMeasureEnd() > tick
    decreases tick - t.tickMeasureBegin
  {
    if t.TickMeasureEnd() <= tick then
      var t1 := ApplyEvents(t, events[imb..i], sym);
      StepMeasures(t1.(tickMeasureBegin := t1.TickMeasureEnd()), events, i, i, tick, sym)
    else (t, imb)
  }

  /** An instance: at 480 ticks per beat, a change to 8/4 at tick 100
      stretches the first measure to 3840 ticks, so the note-on at tick
      1920 is still pending when the next measure starts at 3840, after
      it. Its cell index is negative, so it writes no cell; with a hit
      symbol it marks cell 0 of that measure, on any grid. */
  lemma MidMeasureSignatureFoldsIntoCellZero(g: Pos)
    ensures var events := [TimedEvent(100, TimeSignature(8, 4)), TimedEvent(1920, NoteOn(0, 60, 100))];
      var r := StepMeasures(InitialTiming(480), events, 0, 1, 1920, '1');
      && r.1 == 1 && r.0.tickMeasureBegin == 3840
      && CellIndex(1920, 3840, g) < 0
      && CellSymbol(r.0, events, 1, 2, '1', 3840, g, 0) == '1'
  {
  }

  /** A `time_signature` event at the start of the current measure is
      applied at once (midi_to_tja.py:188-191). */
  function SyncSignature(t: Timing, e: TimedEvent): Timing
  {
    if e.tick == t.tickMeasureBegin && e.msg.TimeSignature? then
      t.(tsignUpper := e.msg.numerator, tsignLower := e.msg.denominator)
    else t
  }

  /** The state `scan_chart` leaves behind, from event `i` on with pending
      range starting at `imb`. */
  function ScanFrom(t: Timing, events: seq<TimedEvent>, i: nat, imb: nat, sym: char): Timing
    requires imb <= i <= |events|
    decreases |events| - i
  {
    if i == |events| then ApplyEvents(t, events[imb..], sym)
    else
      var r := StepMeasures(t, events, imb, i, events[i].tick, sym);
      ScanFrom(SyncSignature(r.0, events[i]), events, i + 1, r.1, sym)
  }

  /** The `scan_measure` calls of the stepping loop of `scan_chart`
      (midi_to_tja.py:182-185), in the order it makes them: the pending
      range on the current measure, then an empty range on each further
      measure that ends at or before `tick`. */
  ghost function StepFlushes(t: Timing, events: seq<TimedEvent>, imb: nat, i: nat, tick: nat, sym: char): seq<Flush>
    requires imb <= i <= |events|
    decreases tick - t.tickMeasureBegin
  {
    if t.TickMeasureEnd() <= tick then
      var t1 := ApplyEvents(t, events[imb..i], sym);
      [Flush(imb, i, t.tickMeasureBegin, t.TicksPerMeasure())]
        + StepFlushes(t1.(tickMeasureBegin := t1.TickMeasureEnd()), events, i, i, tick, sym)
    else []
  }

  /** Every `scan_measure` call `scan_chart` makes from event `i` on, with
      the pending range starting at `imb`: each with its range and the
      start and length of the measure it is made on. */
  ghost function ScanFlushes(t: Timing, events: seq<TimedEvent>, i: nat, imb: nat, sym: char): seq<Flush>
    requires imb <= i <= |events|
    decreases |events| - i
  {
    if i == |events| then [Flush(imb, |events|, t.tickMeasureBegin, t.TicksPerMeasure())]
    else
      var r := StepMeasures(t, events, imb, i, events[i].tick, sym);
      StepFlushes(t, events, imb, i, events[i].tick, sym) + ScanFlushes(SyncSignature(r.0, events[i]), events, i + 1, r.1, sym)
  }

  /** The symbol of the pending cell after event `e`, from `symLast`
      before it: only a note event changes it, to the chart's symbol or, on
      the end of a long note, to '8'. */
  function NextSymbol(t: Timing, e: TimedEvent, sym: char, symLast: char): (r: char)
    ensures r != symLast ==> IsNoteEvent(e) && (r == sym || r == '8')
    ensures r != symLast && r != sym ==> r == '8' && IsLongNote(sym) && e.msg.NoteOff?
    ensures e.msg.NoteOn? && !IsLongNote(sym) ==> r == sym
  {
    match e.msg
    case NoteOn(_, _, _) => if !IsLongNote(sym) || !LastOpen(t.balloons) then sym else symLast
    case NoteOff(_, _) => if IsLongNote(sym) && LastOpen(t.balloons) then '8' else symLast
    case _ => symLast
  }

  /** Whether event `e`, met in state `t`, gives the pending cell a
      symbol: a hit note-on, a long note-on while no balloon record is
      open, or a long note-off that closes the open record. */
  predicate SetsSymbol(t: Timing, e: TimedEvent, sym: char)
  {
    match e.msg
    case NoteOn(_, _, _) => !IsLongNote(sym) || !LastOpen(t.balloons)
    case NoteOff(_, _) => IsLongNote(sym) && LastOpen(t.balloons)
    case _ => false
  }

  /** The symbol a setting event gives its cell: the chart's symbol for a
      note-on, '8' for the end of a long note. */
  function SymbolSet(e: TimedEvent, sym: char): char
  {
    if e.msg.NoteOn? then sym else '8'
  }

  /** Events in tick order act on cells in order: those before the
      measure start on cell 0, the others on the cells their ticks fall
      on. */
  lemma FoldedCellMonotone(a: int, b: int, tickBeg: int, tickGcd: Pos)
    requires a <= b
    ensures FoldedCell(a, tickBeg, tickGcd) <= FoldedCell(b, tickBeg, tickGcd)
    ensures tickBeg <= a ==> FoldedCell(a, tickBeg, tickGcd) == CellIndex(a, tickBeg, tickGcd)
  {
    if tickBeg <= a {
      DivMonotone(0, a - tickBeg, tickGcd);
    }
    DivMonotone(a - tickBeg, b - tickBeg, tickGcd);
  }

  /** The symbol cell `j` of a measure holds after the events `[lo, hi)`
      from state `t0`: that of the last event acting on cell `j` (its
      `FoldedCell`) that sets one, in the state that event meets, or '0'
      when none does. */
  ghost function CellSymbol(t0: Timing, events: seq<TimedEvent>, lo: nat, hi: nat, sym: char,
                            tickBeg: int, tickGcd: Pos, j: int): char
    requires lo <= hi <= |events|
    decreases hi
  {
    if hi == lo then '0'
    else if FoldedCell(events[hi - 1].tick, tickBeg, tickGcd) == j
            && SetsSymbol(ApplyEvents(t0, events[lo..hi - 1], sym), events[hi - 1], sym)
      then SymbolSet(events[hi - 1], sym)
    else CellSymbol(t0, events, lo, hi - 1, sym, tickBeg, tickGcd, j)
  }

  /** A cell no event of the range acts on stays empty. */
  lemma {:induction false} CellSymbolUnset(t0: Timing, events: seq<TimedEvent>, lo: nat, hi: nat, sym: char,
                                           tickBeg: int, tickGcd: Pos, j: int)
    requires lo <= hi <= |events|
    requires forall k | lo <= k < hi :: FoldedCell(events[k].tick, tickBeg, tickGcd) != j
    ensures CellSymbol(t0, events, lo, hi, sym, tickBeg, tickGcd, j) == '0'
    decreases hi
  {
    if hi > lo {
      CellSymbolUnset(t0, events, lo, hi - 1, sym, tickBeg, tickGcd, j);
    }
  }

  /** With a hit symbol every note-on sets its cell and nothing else does:
      a cell shows the symbol exactly when a note-on of the range acts on
      it, and '0' otherwise. */
  lemma {:induction false} HitCellsMarkNoteOns(t0: Timing, events: seq<TimedEvent>, lo: nat, hi: nat, sym: char,
                                               tickBeg: int, tickGcd: Pos, j: int)
    requires lo <= hi <= |events| && !IsLongNote(sym)
    ensures CellSymbol(t0, events, lo, hi, sym, tickBeg, tickGcd, j)
      == if exists k | lo <= k < hi :: events[k].msg.NoteOn? && FoldedCell(events[k].tick, tickBeg, tickGcd) == j
         then sym else '0'
    decreases hi
  {
    if hi > lo {
      HitCellsMarkNoteOns(t0, events, lo, hi - 1, sym, tickBeg, tickGcd, j);
      var e := events[hi - 1];
      if !(e.msg.NoteOn? && FoldedCell(e.tick, tickBeg, tickGcd) == j) {
        if exists k | lo <= k < hi :: events[k].msg.NoteOn? && FoldedCell(events[k].tick, tickBeg, tickGcd) == j {
          var k :| lo <= k < hi && events[k].msg.NoteOn? && FoldedCell(events[k].tick, tickBeg, tickGcd) == j;
          assert k < hi - 1;
        }
      }
    }
  }

  /** With a long symbol a cell shows the symbol, '8' or '0'; the symbol
      only where a note-on acts and '8' only where a note-off acts. */
  lemma {:induction false} LongCellsMarkNoteEvents(t0: Timing, events: seq<TimedEvent>, lo: nat, hi: nat, sym: char,
                                                   tickBeg: int, tickGcd: Pos, j: int)
    requires lo <= hi <= |events| && IsLongNote(sym)
    ensures var c := CellSymbol(t0, events, lo, hi, sym, tickBeg, tickGcd, j);
      && (c == '0' || c == sym || c == '8')
      && (c == sym && sym != '0' ==>
            exists k | lo <= k < hi :: events[k].msg.NoteOn? && FoldedCell(events[k].tick, tickBeg, tickGcd) == j)
      && (c == '8' && sym != '8' ==>
            exists k | lo <= k < hi :: events[k].msg.NoteOff? && FoldedCell(events[k].tick, tickBeg, tickGcd) == j)
    decreases hi
  {
    if hi > lo {
      LongCellsMarkNoteEvents(t0, events, lo, hi - 1, sym, tickBeg, tickGcd, j);
    }
  }

  /** Stepping over measures keeps the balloon records sound, up to the
      first event still pending. */
  lemma {:induction false} StepMeasuresSound(t: Timing, events: seq<TimedEvent>, imb: nat, i: nat, tick: nat, sym: char)
    requires imb <= i < |events| && NonDecreasing(events)
    requires BalloonsSound(t, events[imb].tick)
    ensures var r := StepMeasures(t, events, imb, i, tick, sym); BalloonsSound(r.0, events[r.1].tick)
    decreases tick - t.tickMeasureBegin
  {
    if t.TickMeasureEnd() <= tick {
      var es := events[imb..i];
      ApplyEventsSound(t, es, sym, events[imb].tick);
      var t1 := ApplyEvents(t, es, sym);
      SoundLater(t1, if es == [] then events[imb].tick else es[|es| - 1].tick, events[i].tick);
      StepMeasuresSound(t1.(tickMeasureBegin := t1.TickMeasureEnd()), events, i, i, tick, sym);
    }
  }

  /** The balloon records `scan_chart` leaves behind are sound. */
  lemma {:induction false} ScanFromSound(t: Timing, events: seq<TimedEvent>, i: nat, imb: nat, sym: char, now: int)
    requires imb <= i <= |events| && NonDecreasing(events)
    requires BalloonsSound(t, now) && (imb < |events| ==> now <= events[imb].tick)
    ensures RecordsSound(ScanFrom(t, events, i, imb, sym).balloons)
    decreases |events| - i
  {
    if i == |events| {
      ApplyEventsSound(t, events[imb..], sym, now);
    } else {
      SoundLater(t, now, events[imb].tick);
      var r := StepMeasures(t, events, imb, i, events[i].tick, sym);
      StepMeasuresSound(t, events, imb, i, events[i].tick, sym);
      ScanFromSound(SyncSignature(r.0, events[i]), events, i + 1, r.1, sym, events[r.1].tick);
    }
  }

  /** On events in tick order, starting from a fresh `ChartState` with any
      initial tempo, every balloon record closed by the scan ends no earlier
      than it starts and neither time is negative, so the duration the
      balloon count is computed from is never negative; and only the last
      record can be left open. */
  lemma ChartBalloonsSound(ticksPerBeat: Pos, tempo: nat, events: seq<TimedEvent>, sym: char)
    requires NonDecreasing(events)
    ensures RecordsSound(ScanFrom(InitialTiming(ticksPerBeat).(usecPerBeat := tempo), events, 0, 0, sym).balloons)
  {
    ScanFromSound(InitialTiming(ticksPerBeat).(usecPerBeat := tempo), events, 0, 0, sym, 0);
  }

  /** One `scan_measure` call of `scan_chart`: the range it was given, and
      the measure start and length in force when it was entered. */
  datatype Flush = Flush(lo: nat, hi: nat, begin: nat, length: Pos)

  /** The ranges are contiguous, ascending, and cover `[0, n)`: every event
      index goes to exactly one `scan_measure` call. */
  ghost predicate Partition(flushes: seq<Flush>, n: nat)
  {
    && |flushes| > 0
    && flushes[0].lo == 0
    && flushes[|flushes| - 1].hi == n
    && (forall k :: 0 <= k < |flushes| ==> flushes[k].lo <= flushes[k].hi)
    && (forall k :: 0 <= k < |flushes| - 1 ==> flushes[k].hi == flushes[k + 1].lo)
  }

  /** Contiguous ranges from 0 up to `upTo`. */
  ghost predicate Contiguous(flushes: seq<Flush>, upTo: nat)
  {
    && (|flushes| == 0 ==> upTo == 0)
    && (|flushes| > 0 ==> flushes[0].lo == 0 && flushes[|flushes| - 1].hi == upTo)
    && (forall k :: 0 <= k < |flushes| ==> flushes[k].lo <= flushes[k].hi)
    && (forall k :: 0 <= k < |flushes| - 1 ==> flushes[k].hi == flushes[k + 1].lo)
  }

  /** Each event index of a partition lies in exactly one range. */
  lemma {:induction false} PartitionCoversOnce(flushes: seq<Flush>, n: nat, j: nat)
    requires Partition(flushes, n) && j < n
    ensures exists k :: 0 <= k < |flushes| && flushes[k].lo <= j < flushes[k].hi
    ensures forall k, k' | 0 <= k < |flushes| && 0 <= k' < |flushes|
      && flushes[k].lo <= j < flushes[k].hi && flushes[k'].lo <= j < flushes[k'].hi :: k == k'
  {
    RangesAscend(flushes);
    var k := 0;
    while flushes[k].hi <= j
      invariant 0 <= k < |flushes| && flushes[k].lo <= j
      decreases |flushes| - k
    {
      k := k + 1;
    }
  }

  lemma RangesAscend(flushes: seq<Flush>)
    requires |flushes| > 0
    requires forall k :: 0 <= k < |flushes| ==> flushes[k].lo <= flushes[k].hi
    requires forall k :: 0 <= k < |flushes| - 1 ==> flushes[k].hi == flushes[k + 1].lo
    ensures forall k, k' :: 0 <= k < k' < |flushes| ==> flushes[k].hi <= flushes[k'].lo
  {
    forall k, k' | 0 <= k < k' < |flushes|
      ensures flushes[k].hi <= flushes[k'].lo
    {
      var m := k;
      while m < k' - 1
        invariant k <= m < k' && flushes[k].hi <= flushes[m].hi
      {
        m := m + 1;
      }
    }
  }

  /** Every event of the range is before `end`. */
  predicate EndsBefore(events: seq<TimedEvent>, lo: nat, hi: nat, end: int)
    requires lo <= hi <= |events|
  {
    forall i | lo <= i < hi :: events[i].tick < end
  }

  /** `emit(symbol + (n - 1) * '0', end='')`: the pending cell and the
      empty cells after it, `n` cells in all. */
  method EmitCells(out: seq<Token>, symbol: char, n: nat, write: bool) returns (o: seq<Token>)
    requires n >= 1
    ensures !write ==> o == out
    ensures write ==> o == out + [Cells([symbol] + Zeros(n - 1), false)]
    ensures write ==> CellCount(o) == CellCount(out) + n && MeasureEnds(o) == MeasureEnds(out)
    ensures write ==> CellText(o) == CellText(out) + [symbol] + Zeros(n - 1)
    ensures write ==> Placed(o) == Placed(out)
  {
    var cells := Cells([symbol] + Zeros(n - 1), false);
    EmitCounts(out, cells, write);
    if write {
      CellTextSnoc(out, cells);
      PlacedSnoc(out, cells);
    }
    o := Emit(out, cells, write);
  }

  /** The cells of `scan_measure` up to an event on a later cell
      (midi_to_tja.py:136-141): the pending cell and empty ones up to it,
      which becomes the pending cell, on the current line. */
  method CellsUpTo(out: seq<Token>, symLast: char, idivLast: nat, idiv: int, isLineStart: bool, write: bool)
    returns (o: seq<Token>, idivNext: nat, symNext: char, lineStart: bool)
    ensures idiv > idivLast ==> idivNext == idiv && symNext == '0' && !lineStart
    ensures idiv <= idivLast ==> o == out && idivNext == idivLast && symNext == symLast && lineStart == isLineStart
    ensures !write ==> o == out
    ensures write ==> MeasureEnds(o) == MeasureEnds(out) && CellCount(o) == CellCount(out) + (idivNext - idivLast)
    ensures write && idiv > idivLast ==> o == out + [Cells([symLast] + Zeros(idiv - idivLast - 1), false)]
    ensures write && idiv > idivLast ==> CellText(o) == CellText(out) + [symLast] + Zeros(idiv - idivLast - 1)
    ensures write ==> Placed(o) == Placed(out)
  {
    o, idivNext, symNext, lineStart := out, idivLast, symLast, isLineStart;
    if idiv > idivLast {
      o := EmitCells(out, symLast, idiv - idivLast, write);
      lineStart := false;
      symNext := '0';
      idivNext := idiv;
    }
  }

  /** What the event loop of `scan_measure` keeps of its output at event
      `i`: the cells printed reach the pending cell, which lies inside the
      measure when the events do. */
  ghost predicate CellsSoFar(events: seq<TimedEvent>, lo: nat, hi: nat, i: nat, write: bool,
                             tickBeg: int, tickGcd: Pos, ndiv: int, out: seq<Token>, idivLast: nat)
  {
    && lo <= i <= hi <= |events|
    && (!write ==> out == [])
    && (write ==> MeasureEnds(out) == 0 && CellCount(out) == idivLast)
    && (i == lo ==> idivLast == 0)
    && (EndsBefore(events, lo, hi, tickBeg + ndiv * tickGcd) ==> idivLast < ndiv)
  }

  /** The cells up to one more event keep `CellsSoFar`. */
  lemma CellsStep(events: seq<TimedEvent>, lo: nat, hi: nat, i: nat, write: bool, tickBeg: int, tickGcd: Pos, ndiv: int,
                  out: seq<Token>, idivLast: nat, o: seq<Token>, idivNext: nat)
    requires i < hi && CellsSoFar(events, lo, hi, i, write, tickBeg, tickGcd, ndiv, out, idivLast)
    requires var idiv := CellIndex(events[i].tick, tickBeg, tickGcd);
      idivNext == if idiv > idivLast then idiv else idivLast
    requires !write ==> o == out
    requires write ==> MeasureEnds(o) == MeasureEnds(out) && CellCount(o) == CellCount(out) + (idivNext - idivLast)
    ensures CellsSoFar(events, lo, hi, i + 1, write, tickBeg, tickGcd, ndiv, o, idivNext)
  {
    var measureEnd := tickBeg + ndiv * tickGcd;
    if EndsBefore(events, lo, hi, measureEnd) && idivNext != idivLast {
      CellBeforeEnd(events[i].tick, tickBeg, measureEnd, ndiv, tickGcd);
    }
  }

  /** The events of a range are in tick order: what `scan_chart` hands
      `scan_measure` on sorted input. */
  predicate InOrder(events: seq<TimedEvent>, lo: nat, hi: nat)
    requires lo <= hi <= |events|
  {
    forall a, b | lo <= a < b < hi :: events[a].tick <= events[b].tick
  }

  /** What the event loop of `scan_measure` keeps of the cell symbols at
      event `i`, on a range in tick order: every cell before the pending
      one is written with its `CellSymbol`, the pending cell is the one the
      last event acts on and carries its `CellSymbol`, and no event so far
      acts on a later cell. */
  ghost predicate SymbolsSoFar(t0: Timing, events: seq<TimedEvent>, lo: nat, hi: nat, i: nat, sym: char, write: bool,
                               tickBeg: int, tickGcd: Pos, out: seq<Token>, idivLast: nat, symLast: char)
    requires lo <= i <= hi <= |events|
  {
    write && InOrder(events, lo, hi) ==>
      && (forall k | lo <= k < i :: FoldedCell(events[k].tick, tickBeg, tickGcd) <= idivLast)
      && idivLast == (if i > lo then FoldedCell(events[i - 1].tick, tickBeg, tickGcd) else 0)
      && |CellText(out)| == idivLast
      && (forall j | 0 <= j < idivLast :: CellText(out)[j] == CellSymbol(t0, events, lo, i, sym, tickBeg, tickGcd, j))
      && symLast == CellSymbol(t0, events, lo, i, sym, tickBeg, tickGcd, idivLast)
  }

  /** One more event changes only the symbol of its own cell, and only if
      it sets one. */
  lemma CellSymbolNext(t0: Timing, events: seq<TimedEvent>, lo: nat, i: nat, sym: char,
                       tickBeg: int, tickGcd: Pos, j: int)
    requires lo <= i < |events|
    ensures CellSymbol(t0, events, lo, i + 1, sym, tickBeg, tickGcd, j)
      == if FoldedCell(events[i].tick, tickBeg, tickGcd) == j && SetsSymbol(ApplyEvents(t0, events[lo..i], sym), events[i], sym)
         then SymbolSet(events[i], sym) else CellSymbol(t0, events, lo, i, sym, tickBeg, tickGcd, j)
  {
  }

  lemma NextSymbolSets(t: Timing, e: TimedEvent, sym: char, symLast: char)
    ensures NextSymbol(t, e, sym, symLast) == if SetsSymbol(t, e, sym) then SymbolSet(e, sym) else symLast
  {
  }

  /** The cells up to one more event, and the symbol the event sets, keep
      `SymbolsSoFar`. */
  lemma SymbolsStep(t0: Timing, events: seq<TimedEvent>, lo: nat, hi: nat, i: nat, sym: char, write: bool,
                    tickBeg: int, tickGcd: Pos, out: seq<Token>, idivLast: nat, symLast: char,
                    o: seq<Token>, idivNext: nat, symNext: char)
    requires lo <= i < hi <= |events|
    requires SymbolsSoFar(t0, events, lo, hi, i, sym, write, tickBeg, tickGcd, out, idivLast, symLast)
    requires var idiv := CellIndex(events[i].tick, tickBeg, tickGcd);
      && idivNext == (if idiv > idivLast then idiv else idivLast)
      && (write && idiv > idivLast ==> CellText(o) == CellText(out) + [symLast] + Zeros(idiv - idivLast - 1))
      && (write && idiv <= idivLast ==> CellText(o) == CellText(out))
      && symNext == NextSymbol(ApplyEvents(t0, events[lo..i], sym), events[i], sym, if idiv > idivLast then '0' else symLast)
    ensures SymbolsSoFar(t0, events, lo, hi, i + 1, sym, write, tickBeg, tickGcd, o, idivNext, symNext)
  {
    if write && InOrder(events, lo, hi) {
      var idiv := CellIndex(events[i].tick, tickBeg, tickGcd);
      FoldedCellMonotone(if i > lo then events[i - 1].tick else events[i].tick, events[i].tick, tickBeg, tickGcd);
      var t := ApplyEvents(t0, events[lo..i], sym);
      NextSymbolSets(t, events[i], sym, if idiv > idivLast then '0' else symLast);
      CellSymbolNext(t0, events, lo, i, sym, tickBeg, tickGcd, idivNext);
      if idiv > idivLast {
        SymbolsNewCell(t0, events, lo, hi, i, sym, tickBeg, tickGcd, out, idivLast, symLast, o, idiv);
        CellSymbolUnset(t0, events, lo, i, sym, tickBeg, tickGcd, idiv);
      } else {
        SymbolsSameCell(t0, events, lo, hi, i, sym, tickBeg, tickGcd, out, idivLast, o);
      }
    }
  }

  /** An event on a later cell writes the pending cell and empty ones
      before its own, all with their symbols after the event. */
  lemma SymbolsNewCell(t0: Timing, events: seq<TimedEvent>, lo: nat, hi: nat, i: nat, sym: char,
                       tickBeg: int, tickGcd: Pos, out: seq<Token>, idivLast: nat, symLast: char,
                       o: seq<Token>, idiv: int)
    requires lo <= i < hi <= |events| && idiv == CellIndex(events[i].tick, tickBeg, tickGcd) && idiv > idivLast
    requires forall k | lo <= k < i :: FoldedCell(events[k].tick, tickBeg, tickGcd) <= idivLast
    requires |CellText(out)| == idivLast
    requires forall j | 0 <= j < idivLast :: CellText(out)[j] == CellSymbol(t0, events, lo, i, sym, tickBeg, tickGcd, j)
    requires symLast == CellSymbol(t0, events, lo, i, sym, tickBeg, tickGcd, idivLast)
    requires CellText(o) == CellText(out) + [symLast] + Zeros(idiv - idivLast - 1)
    ensures |CellText(o)| == idiv
    ensures forall k | lo <= k < i + 1 :: FoldedCell(events[k].tick, tickBeg, tickGcd) <= idiv
    ensures forall j | 0 <= j < idiv :: CellText(o)[j] == CellSymbol(t0, events, lo, i + 1, sym, tickBeg, tickGcd, j)
  {
    forall j | 0 <= j < idiv
      ensures CellText(o)[j] == CellSymbol(t0, events, lo, i + 1, sym, tickBeg, tickGcd, j)
    {
      CellSymbolNext(t0, events, lo, i, sym, tickBeg, tickGcd, j);
      if j > idivLast {
        CellSymbolUnset(t0, events, lo, i, sym, tickBeg, tickGcd, j);
      }
    }
  }

  /** An event on the pending cell leaves the written cells as they are. */
  lemma SymbolsSameCell(t0: Timing, events: seq<TimedEvent>, lo: nat, hi: nat, i: nat, sym: char,
                        tickBeg: int, tickGcd: Pos, out: seq<Token>, idivLast: nat, o: seq<Token>)
    requires lo <= i < hi <= |events| && FoldedCell(events[i].tick, tickBeg, tickGcd) == idivLast
    requires |CellText(out)| == idivLast
    requires forall j | 0 <= j < idivLast :: CellText(out)[j] == CellSymbol(t0, events, lo, i, sym, tickBeg, tickGcd, j)
    requires forall k | lo <= k < i :: FoldedCell(events[k].tick, tickBeg, tickGcd) <= idivLast
    requires CellText(o) == CellText(out)
    ensures |CellText(o)| == idivLast
    ensures forall k | lo <= k < i + 1 :: FoldedCell(events[k].tick, tickBeg, tickGcd) <= idivLast
    ensures forall j | 0 <= j < idivLast :: CellText(o)[j] == CellSymbol(t0, events, lo, i + 1, sym, tickBeg, tickGcd, j)
  {
    forall j | 0 <= j < idivLast
      ensures CellText(o)[j] == CellSymbol(t0, events, lo, i + 1, sym, tickBeg, tickGcd, j)
    {
      CellSymbolNext(t0, events, lo, i, sym, tickBeg, tickGcd, j);
    }
  }

  /** The cells after the last event close the measure: the pending cell
      and empty ones up to `ndiv` complete the symbols of all `ndiv`
      cells. */
  lemma SymbolsClose(t0: Timing, events: seq<TimedEvent>, lo: nat, hi: nat, sym: char, write: bool,
                     tickBeg: int, tickGcd: Pos, out: seq<Token>, idivLast: nat, symLast: char, ndiv: int, o: seq<Token>)
    requires lo <= hi <= |events| && write && InOrder(events, lo, hi) && idivLast < ndiv
    requires SymbolsSoFar(t0, events, lo, hi, hi, sym, write, tickBeg, tickGcd, out, idivLast, symLast)
    requires CellText(o) == CellText(out) + [symLast] + Zeros(ndiv - idivLast - 1)
    ensures |CellText(o)| == ndiv
    ensures forall j | 0 <= j < ndiv :: CellText(o)[j] == CellSymbol(t0, events, lo, hi, sym, tickBeg, tickGcd, j)
  {
    forall j | idivLast < j < ndiv
      ensures CellText(o)[j] == CellSymbol(t0, events, lo, hi, sym, tickBeg, tickGcd, j)
    {
      CellSymbolUnset(t0, events, lo, hi, sym, tickBeg, tickGcd, j);
    }
  }

  /** What the event loop of `scan_measure` keeps of the directives at
      event `i`, on a range in tick order: those of the events so far,
      each after the cells before the cell its event acts on. */
  ghost predicate DirectivesSoFar(events: seq<TimedEvent>, lo: nat, hi: nat, i: nat, write: bool,
                                  tickBeg: int, tickGcd: Pos, out: seq<Token>, idivLast: nat)
    requires lo <= i <= hi <= |events|
  {
    write && InOrder(events, lo, hi) ==>
      && idivLast == (if i > lo then FoldedCell(events[i - 1].tick, tickBeg, tickGcd) else 0)
      && CellCount(out) == idivLast
      && Placed(out) == EventDirectives(events, lo, i, tickBeg, tickGcd)
  }

  /** The cells up to one more event and its directive keep
      `DirectivesSoFar`. */
  lemma DirectivesStep(events: seq<TimedEvent>, lo: nat, hi: nat, i: nat, write: bool, tickBeg: int, tickGcd: Pos,
                       out: seq<Token>, idivLast: nat, o: seq<Token>, idivNext: nat)
    requires lo <= i < hi <= |events|
    requires DirectivesSoFar(events, lo, hi, i, write, tickBeg, tickGcd, out, idivLast)
    requires var idiv := CellIndex(events[i].tick, tickBeg, tickGcd);
      idivNext == if idiv > idivLast then idiv else idivLast
    requires write ==> CellCount(o) == CellCount(out) + (idivNext - idivLast)
    requires write ==>
      var placedNow := if HasDirective(events[i]) then [(CellCount(out) + (idivNext - idivLast), DirectiveOf(events[i]))] else [];
      Placed(o) == Placed(out) + placedNow
    ensures DirectivesSoFar(events, lo, hi, i + 1, write, tickBeg, tickGcd, o, idivNext)
  {
    if write && InOrder(events, lo, hi) {
      FoldedCellMonotone(if i > lo then events[i - 1].tick else events[i].tick, events[i].tick, tickBeg, tickGcd);
    }
  }

  /** One turn of the event loop of `scan_measure`, from what its two
      halves write (`out1` after the cells, `o` after the event), keeps the
      three loop invariants. */
  lemma ScanStep(t0: Timing, events: seq<TimedEvent>, lo: nat, hi: nat, i: nat, sym: char, write: bool,
                 tickBeg: int, tickGcd: Pos, ndiv: int, out: seq<Token>, idivLast: nat, symLast: char,
                 out1: seq<Token>, sym1: char, o: seq<Token>, idivNext: nat, symNext: char)
    requires lo <= i < hi <= |events|
    requires CellsSoFar(events, lo, hi, i, write, tickBeg, tickGcd, ndiv, out, idivLast)
    requires SymbolsSoFar(t0, events, lo, hi, i, sym, write, tickBeg, tickGcd, out, idivLast, symLast)
    requires DirectivesSoFar(events, lo, hi, i, write, tickBeg, tickGcd, out, idivLast)
    requires var idiv := CellIndex(events[i].tick, tickBeg, tickGcd);
      && (idiv > idivLast ==> idivNext == idiv && sym1 == '0')
      && (idiv <= idivLast ==> out1 == out && idivNext == idivLast && sym1 == symLast)
      && (!write ==> out1 == out)
      && (write ==> MeasureEnds(out1) == MeasureEnds(out) && CellCount(out1) == CellCount(out) + (idivNext - idivLast))
      && (write && idiv > idivLast ==> CellText(out1) == CellText(out) + [symLast] + Zeros(idiv - idivLast - 1))
      && (write ==> Placed(out1) == Placed(out))
    requires symNext == NextSymbol(ApplyEvents(t0, events[lo..i], sym), events[i], sym, sym1)
    requires !write ==> o == out1
    requires write ==> CellCount(o) == CellCount(out1) && MeasureEnds(o) == MeasureEnds(out1)
    requires write ==> CellText(o) == CellText(out1)
    requires write ==> Placed(o) == Placed(out1) + (if HasDirective(events[i]) then [(CellCount(out1), DirectiveOf(events[i]))] else [])
    ensures CellsSoFar(events, lo, hi, i + 1, write, tickBeg, tickGcd, ndiv, o, idivNext)
    ensures SymbolsSoFar(t0, events, lo, hi, i + 1, sym, write, tickBeg, tickGcd, o, idivNext, symNext)
    ensures DirectivesSoFar(events, lo, hi, i + 1, write, tickBeg, tickGcd, o, idivNext)
  {
    TurnOutput(ApplyEvents(t0, events[lo..i], sym), events[i], sym, write, CellIndex(events[i].tick, tickBeg, tickGcd),
               out, idivLast, symLast, out1, sym1, o, idivNext, symNext);
    CellsStep(events, lo, hi, i, write, tickBeg, tickGcd, ndiv, out, idivLast, o, idivNext);
    SymbolsStep(t0, events, lo, hi, i, sym, write, tickBeg, tickGcd, out, idivLast, symLast, o, idivNext, symNext);
    DirectivesStep(events, lo, hi, i, write, tickBeg, tickGcd, out, idivLast, o, idivNext);
  }

  /** Before the event loop of `scan_measure` nothing is written, at cell
      0 with the empty symbol: its three invariants hold. */
  lemma ScanStart(t0: Timing, events: seq<TimedEvent>, lo: nat, hi: nat, sym: char, write: bool,
                  tickBeg: int, tickGcd: Pos, ndiv: int)
    requires lo <= hi <= |events| && ndiv >= 1
    ensures CellsSoFar(events, lo, hi, lo, write, tickBeg, tickGcd, ndiv, [], 0)
    ensures SymbolsSoFar(t0, events, lo, hi, lo, sym, write, tickBeg, tickGcd, [], 0, '0')
    ensures DirectivesSoFar(events, lo, hi, lo, write, tickBeg, tickGcd, [], 0)
  {
  }

  /** What one turn of the event loop writes, from its two halves: the
      cells up to the event's cell `idiv`, then the event's directive. */
  lemma TurnOutput(t: Timing, e: TimedEvent, sym: char, write: bool, idiv: int,
                   out: seq<Token>, idivLast: nat, symLast: char,
                   out1: seq<Token>, sym1: char, o: seq<Token>, idivNext: nat, symNext: char)
    requires idiv > idivLast ==> idivNext == idiv && sym1 == '0'
    requires idiv <= idivLast ==> out1 == out && idivNext == idivLast && sym1 == symLast
    requires !write ==> out1 == out
    requires write ==> MeasureEnds(out1) == MeasureEnds(out) && CellCount(out1) == CellCount(out) + (idivNext - idivLast)
    requires write && idiv > idivLast ==> CellText(out1) == CellText(out) + [symLast] + Zeros(idiv - idivLast - 1)
    requires write ==> Placed(out1) == Placed(out)
    requires symNext == NextSymbol(t, e, sym, sym1)
    requires !write ==> o == out1
    requires write ==> CellCount(o) == CellCount(out1) && MeasureEnds(o) == MeasureEnds(out1)
    requires write ==> CellText(o) == CellText(out1)
    requires write ==> Placed(o) == Placed(out1) + (if HasDirective(e) then [(CellCount(out1), DirectiveOf(e))] else [])
    ensures idivNext == if idiv > idivLast then idiv else idivLast
    ensures !write ==> o == out
    ensures write ==> MeasureEnds(o) == MeasureEnds(out) && CellCount(o) == CellCount(out) + (idivNext - idivLast)
    ensures write && idiv > idivLast ==> CellText(o) == CellText(out) + [symLast] + Zeros(idiv - idivLast - 1)
    ensures write && idiv <= idivLast ==> CellText(o) == CellText(out)
    ensures symNext == NextSymbol(t, e, sym, if idiv > idivLast then '0' else symLast)
    ensures write ==>
      var placedNow := if HasDirective(e) then [(CellCount(out) + (idivNext - idivLast), DirectiveOf(e))] else [];
      Placed(o) == Placed(out) + placedNow
  {
    if write && idiv > idivLast {
      assert CellCount(out1) == CellCount(out) + (idivNext - idivLast);
    } else if write {
      assert out1 == out;
    }
  }

  /** The `,` that closes a measure. */
  method EndMeasure(out: seq<Token>, write: bool) returns (o: seq<Token>)
    ensures !write ==> o == out
    ensures write ==> o == out + [MeasureEnd]
    ensures write ==> MeasureEnds(o) == MeasureEnds(out) + 1 && CellCount(o) == CellCount(out)
    ensures write ==> CellText(o) == CellText(out) && Placed(o) == Placed(out)
  {
    o := out;
    if write {
      PlacedSnoc(out, MeasureEnd);
      CellTextSnoc(out, MeasureEnd);
      CellCountSnoc(out, MeasureEnd);
      MeasureEndsSnoc(out, MeasureEnd);
      o := out + [MeasureEnd];
    }
  }

  /** The end of `scan_measure` (midi_to_tja.py:171-175): for a non-empty
      range, the pending cell and the empty ones up to the grid end, then
      the `,`. */
  method CloseMeasure(ghost t0: Timing, events: seq<TimedEvent>, lo: nat, hi: nat, sym: char, write: bool,
                      tickBeg: int, tickGcd: Pos, ndiv: int, out: seq<Token>, idivLast: nat, symLast: char)
    returns (o: seq<Token>)
    requires lo <= hi <= |events|
    requires CellsSoFar(events, lo, hi, hi, write, tickBeg, tickGcd, ndiv, out, idivLast)
    requires SymbolsSoFar(t0, events, lo, hi, hi, sym, write, tickBeg, tickGcd, out, idivLast, symLast)
    ensures !write ==> o == []
    ensures write ==> MeasureEnds(o) == 1 && o[|o| - 1] == MeasureEnd
    ensures write && EndsBefore(events, lo, hi, tickBeg + ndiv * tickGcd) ==> CellCount(o) == if lo < hi then ndiv else 0
    ensures write && lo < hi && EndsBefore(events, lo, hi, tickBeg + ndiv * tickGcd) && InOrder(events, lo, hi) ==>
      && |CellText(o)| == ndiv
      && forall j | 0 <= j < ndiv :: CellText(o)[j] == CellSymbol(t0, events, lo, hi, sym, tickBeg, tickGcd, j)
    ensures write ==> Placed(o) == Placed(out)
  {
    o := out;
    if hi > lo && ndiv > idivLast {
      o := EmitCells(out, symLast, ndiv - idivLast, write);
      if write && EndsBefore(events, lo, hi, tickBeg + ndiv * tickGcd) && InOrder(events, lo, hi) {
        SymbolsClose(t0, events, lo, hi, sym, write, tickBeg, tickGcd, out, idivLast, symLast, ndiv, o);
      }
    }
    o := EndMeasure(o, write);
  }

  /** `ensure_line_start()` and the directive: a line break first unless
      the line is empty. */
  method EmitDirective(out: seq<Token>, isLineStart: bool, directive: Token, write: bool) returns (o: seq<Token>)
    requires directive.MeasureDirective? || directive.TempoDirective?
    ensures !write ==> o == out
    ensures write ==> o == out + (if isLineStart then [] else [LineBreak]) + [directive]
    ensures write ==> CellCount(o) == CellCount(out) && MeasureEnds(o) == MeasureEnds(out)
    ensures write ==> CellText(o) == CellText(out)
    ensures write ==> Placed(o) == Placed(out) + [(CellCount(out), directive)]
  {
    if !write {
      o := out;
    } else if isLineStart {
      o := out + [directive];
      CellCountSnoc(out, directive);
      MeasureEndsSnoc(out, directive);
      CellTextSnoc(out, directive);
      PlacedSnoc(out, directive);
    } else {
      o := out + [LineBreak] + [directive];
      CellCountSnoc(out, LineBreak);
      MeasureEndsSnoc(out, LineBreak);
      CellTextSnoc(out, LineBreak);
      PlacedSnoc(out, LineBreak);
      CellCountSnoc(out + [LineBreak], directive);
      MeasureEndsSnoc(out + [LineBreak], directive);
      CellTextSnoc(out + [LineBreak], directive);
      PlacedSnoc(out + [LineBreak], directive);
    }
  }

  /** The grid cells a `scan_measure` call writes: as many as its gcd
      grid has, or none for an empty range. */
  ghost function FlushCells(events: seq<TimedEvent>, f: Flush): nat
  {
    if f.lo < f.hi <= |events| then f.length / MeasureGcd(events, f.lo, f.hi, f.begin, f.length) else 0
  }

  ghost function GridCells(events: seq<TimedEvent>, flushes: seq<Flush>): nat
  {
    if flushes == [] then 0
    else GridCells(events, flushes[..|flushes| - 1]) + FlushCells(events, flushes[|flushes| - 1])
  }

  lemma {:induction false} GridCellsAppend(events: seq<TimedEvent>, a: seq<Flush>, b: seq<Flush>)
    ensures GridCells(events, a + b) == GridCells(events, a) + GridCells(events, b)
    decreases |b|
  {
    if b == [] {
      assert a + b == a;
    } else {
      var b' := b[..|b| - 1];
      assert (a + b)[..|a + b| - 1] == a + b';
      GridCellsAppend(events, a, b');
    }
  }

  /** Every `scan_measure` call got only events before the end of its
      measure. */
  ghost predicate FlushesEndBefore(events: seq<TimedEvent>, flushes: seq<Flush>)
  {
    forall k | 0 <= k < |flushes| ::
      flushes[k].lo <= flushes[k].hi <= |events|
      && EndsBefore(events, flushes[k].lo, flushes[k].hi, flushes[k].begin + flushes[k].length)
  }

  lemma FlushesEndBeforeAppend(events: seq<TimedEvent>, a: seq<Flush>, b: seq<Flush>)
    requires FlushesEndBefore(events, a) && FlushesEndBefore(events, b)
    ensures FlushesEndBefore(events, a + b)
  {
    forall k | 0 <= k < |a + b|
      ensures (a + b)[k].lo <= (a + b)[k].hi <= |events|
      ensures EndsBefore(events, (a + b)[k].lo, (a + b)[k].hi, (a + b)[k].begin + (a + b)[k].length)
    {
      if k < |a| {
        assert (a + b)[k] == a[k];
      } else {
        assert (a + b)[k] == b[k - |a|];
      }
    }
  }

  /** The ranges flushed before event `i` continue the ranges before them. */
  /** The measures before the last one and the last one together cover
      all events, with their `,`s and, on events in tick order, their
      cells. */
  lemma LastMeasureJoins(events: seq<TimedEvent>, flushes: seq<Flush>, imb: nat, f: Flush,
                         out: seq<Token>, o: seq<Token>, write: bool)
    requires imb <= |events| && f.lo == imb && f.hi == |events|
    requires Contiguous(flushes, imb) && forall k | 0 <= k < |flushes| :: flushes[k].hi <= imb
    requires !write ==> out == [] && o == []
    requires write ==> MeasureEnds(out) == |flushes| && MeasureEnds(o) == 1
    requires NonDecreasing(events) ==> FlushesEndBefore(events, flushes) && FlushesEndBefore(events, [f])
    requires NonDecreasing(events) && write ==>
      CellCount(out) == GridCells(events, flushes) && CellCount(o) == GridCells(events, [f])
    ensures Partition(flushes + [f], |events|)
    ensures !write ==> out + o == []
    ensures write ==> MeasureEnds(out + o) == |flushes + [f]|
    ensures NonDecreasing(events) ==> FlushesEndBefore(events, flushes + [f])
    ensures NonDecreasing(events) && write ==> CellCount(out + o) == GridCells(events, flushes + [f])
  {
    if write {
      MeasureEndsAppend(out, o);
      CellCountAppend(out, o);
    }
    GridCellsAppend(events, flushes, [f]);
    if NonDecreasing(events) {
      FlushesEndBeforeAppend(events, flushes, [f]);
    }
    ContiguousAppend(flushes, imb, [f], |events|);
  }

  lemma ContiguousAppend(a: seq<Flush>, imb: nat, b: seq<Flush>, i: nat)
    requires Contiguous(a, imb) && forall k | 0 <= k < |a| :: a[k].hi <= imb
    requires imb <= i
    requires b != [] ==> b[0].lo == imb && b[0].hi == i
    requires forall k | 0 < k < |b| :: b[k].lo == i && b[k].hi == i
    ensures Contiguous(a + b, if b == [] then imb else i)
    ensures forall k | 0 <= k < |a + b| :: (a + b)[k].hi <= (if b == [] then imb else i)
  {
    if b != [] {
      var r := a + b;
      forall k | 0 <= k < |r| - 1
        ensures r[k].hi == r[k + 1].lo
      {
        if k < |a| - 1 {
          assert r[k] == a[k] && r[k + 1] == a[k + 1];
        } else if k == |a| - 1 {
          assert r[k] == a[k] && r[k + 1] == b[0];
        } else {
          assert r[k] == b[k - |a|] && r[k + 1] == b[k + 1 - |a|];
        }
      }
      forall k | 0 <= k < |r|
        ensures r[k].lo <= r[k].hi && r[k].hi <= i
      {
        if k < |a| {
          assert r[k] == a[k];
        } else {
          assert r[k] == b[k - |a|];
        }
      }
    }
  }

  /** A signature change at the measure start lengthens nothing back past
      the pending events: on events in tick order they all lie at or before
      event `i`, which lies before the end of the measure. */
  lemma PendingStaysBefore(events: seq<TimedEvent>, imb: nat, i: nat, before: Timing, after: Timing)
    requires imb <= i < |events| && NonDecreasing(events)
    requires EndsBefore(events, imb, i, before.TickMeasureEnd()) && events[i].tick < before.TickMeasureEnd()
    requires after == SyncSignature(before, events[i])
    ensures EndsBefore(events, imb, i + 1, after.TickMeasureEnd())
  {
    forall j | imb <= j < i + 1
      ensures events[j].tick < after.TickMeasureEnd()
    {
      if after != before {
        assert events[j].tick <= events[i].tick;
      }
    }
  }

  /** What the stepping loop of `scan_chart` (midi_to_tja.py:182-185)
      keeps of the state, from state `t0` over the pending range
      `[imb, i)`, at state `v` with the pending range starting at
      `imbNext`. */
  ghost predicate OverState(events: seq<TimedEvent>, t0: Timing, imb: nat, i: nat, sym: char, v: Timing,
                            imbNext: nat, flushes: seq<Flush>)
  {
    var tick := if i < |events| then events[i].tick else 0;
    && imb <= imbNext <= i < |events|
    && StepMeasures(v, events, imbNext, i, tick, sym) == StepMeasures(t0, events, imb, i, tick, sym)
    && flushes + StepFlushes(v, events, imbNext, i, tick, sym) == StepFlushes(t0, events, imb, i, tick, sym)
    && (flushes == [] ==> imbNext == imb && v == t0)
    && (flushes != [] ==> imbNext == i && flushes[0] == Flush(imb, i, t0.tickMeasureBegin, t0.TicksPerMeasure()))
    && (flushes != [] ==> t0.TickMeasureEnd() <= tick)
    && (forall k | 0 < k < |flushes| :: flushes[k].lo == i && flushes[k].hi == i)
  }

  /** What the same loop keeps of its output. */
  ghost predicate OverOutput(events: seq<TimedEvent>, t0: Timing, imb: nat, i: nat, write: bool,
                             out: seq<Token>, flushes: seq<Flush>)
  {
    && imb <= i <= |events|
    && (!write ==> out == [])
    && (write ==> MeasureEnds(out) == |flushes|)
    && (EndsBefore(events, imb, i, t0.TickMeasureEnd()) ==> FlushesEndBefore(events, flushes))
    && (write && EndsBefore(events, imb, i, t0.TickMeasureEnd()) ==> CellCount(out) == GridCells(events, flushes))
  }

  /** One flushed and advanced measure keeps `OverState`. */
  lemma OverStateStep(events: seq<TimedEvent>, t0: Timing, imb: nat, i: nat, sym: char, v: Timing, w: Timing,
                      imbNext: nat, flushes: seq<Flush>, f: Flush)
    requires OverState(events, t0, imb, i, sym, v, imbNext, flushes)
    requires v.TickMeasureEnd() <= events[i].tick
    requires f == Flush(imbNext, i, v.tickMeasureBegin, v.TicksPerMeasure())
    requires var t1 := ApplyEvents(v, events[imbNext..i], sym); w == t1.(tickMeasureBegin := t1.TickMeasureEnd())
    ensures OverState(events, t0, imb, i, sym, w, i, flushes + [f])
  {
    var tick := events[i].tick;
    assert StepFlushes(v, events, imbNext, i, tick, sym) == [f] + StepFlushes(w, events, i, i, tick, sym);
    assert flushes + ([f] + StepFlushes(w, events, i, i, tick, sym))
        == (flushes + [f]) + StepFlushes(w, events, i, i, tick, sym);
  }

  /** One flushed measure keeps `OverOutput`. */
  lemma OverOutputStep(events: seq<TimedEvent>, t0: Timing, imb: nat, i: nat, write: bool, v: Timing, imbNext: nat,
                       out: seq<Token>, o: seq<Token>, flushes: seq<Flush>, f: Flush)
    requires OverOutput(events, t0, imb, i, write, out, flushes)
    requires imb <= imbNext <= i < |events|
    requires flushes == [] ==> imbNext == imb && v == t0
    requires flushes != [] ==> imbNext == i
    requires f == Flush(imbNext, i, v.tickMeasureBegin, v.TicksPerMeasure())
    requires !write ==> o == []
    requires write ==> MeasureEnds(o) == 1
    requires var length := v.TicksPerMeasure();
      write && EndsBefore(events, imbNext, i, v.tickMeasureBegin + length) ==>
      CellCount(o) == if imbNext < i then length / MeasureGcd(events, imbNext, i, v.tickMeasureBegin, length) else 0
    ensures OverOutput(events, t0, imb, i, write, out + o, flushes + [f])
  {
    if EndsBefore(events, imb, i, t0.TickMeasureEnd()) {
      NextEndsBefore(events, t0, imb, i, v, imbNext, flushes, f);
    }
    if write {
      MeasureEndsAppend(out, o);
      CellCountAppend(out, o);
      GridCellsAppend(events, flushes, [f]);
      assert GridCells(events, [f]) == FlushCells(events, f) by {
        assert [f][..0] == [];
      }
    }
  }

  /** The next flush of the stepping loop gets only events before the end
      of its measure when the pending range does. */
  lemma NextEndsBefore(events: seq<TimedEvent>, t0: Timing, imb: nat, i: nat, v: Timing, imbNext: nat,
                       flushes: seq<Flush>, f: Flush)
    requires imb <= imbNext <= i < |events|
    requires flushes == [] ==> imbNext == imb && v == t0
    requires flushes != [] ==> imbNext == i
    requires f == Flush(imbNext, i, v.tickMeasureBegin, v.TicksPerMeasure())
    requires EndsBefore(events, imb, i, t0.TickMeasureEnd()) && FlushesEndBefore(events, flushes)
    ensures FlushesEndBefore(events, flushes + [f])
  {
    assert FlushesEndBefore(events, [f]);
    FlushesEndBeforeAppend(events, flushes, [f]);
  }

  /** What the loop's predicates say once the measure holds the event. */
  lemma OverEnd(events: seq<TimedEvent>, t0: Timing, imb: nat, i: nat, sym: char, write: bool, v: Timing,
                imbNext: nat, out: seq<Token>, flushes: seq<Flush>)
    requires OverState(events, t0, imb, i, sym, v, imbNext, flushes) && events[i].tick < v.TickMeasureEnd()
    requires OverOutput(events, t0, imb, i, write, out, flushes)
    ensures (v, imbNext) == StepMeasures(t0, events, imb, i, events[i].tick, sym)
    ensures flushes == StepFlushes(t0, events, imb, i, events[i].tick, sym)
    ensures flushes == [] <==> t0.TickMeasureEnd() > events[i].tick
    ensures flushes == [] ==> v == t0 && imbNext == imb
    ensures flushes != [] ==> imbNext == i && flushes[0] == Flush(imb, i, t0.tickMeasureBegin, t0.TicksPerMeasure())
    ensures forall k | 0 < k < |flushes| :: flushes[k].lo == i && flushes[k].hi == i
    ensures !write ==> out == []
    ensures write ==> MeasureEnds(out) == |flushes|
    ensures EndsBefore(events, imb, i, t0.TickMeasureEnd()) ==> FlushesEndBefore(events, flushes)
    ensures write && EndsBefore(events, imb, i, t0.TickMeasureEnd()) ==> CellCount(out) == GridCells(events, flushes)
  {
    assert flushes + StepFlushes(v, events, imbNext, i, events[i].tick, sym) == flushes + [];
  }

  /** What the loop of `scan_chart` (midi_to_tja.py:178-191) keeps, from
      the state `t0` before it, at event `i` with the pending range
      starting at `imb` and state `v`. */
  ghost predicate Progress(events: seq<TimedEvent>, t0: Timing, sym: char, write: bool, out: seq<Token>,
                           flushes: seq<Flush>, imb: nat, i: nat, v: Timing)
  {
    var nd := NonDecreasing(events);
    && imb <= i <= |events|
    && ScanFrom(v, events, i, imb, sym) == ScanFrom(t0, events, 0, 0, sym)
    && flushes + ScanFlushes(v, events, i, imb, sym) == ScanFlushes(t0, events, 0, 0, sym)
    && Contiguous(flushes, imb)
    && (forall k | 0 <= k < |flushes| :: flushes[k].hi <= imb)
    && (!write ==> out == [])
    && (write ==> MeasureEnds(out) == |flushes|)
    && (nd ==> FlushesEndBefore(events, flushes) && EndsBefore(events, imb, i, v.TickMeasureEnd()))
    && (nd && write ==> CellCount(out) == GridCells(events, flushes))
  }

  lemma ProgressStart(events: seq<TimedEvent>, t0: Timing, sym: char, write: bool)
    ensures Progress(events, t0, sym, write, [], [], 0, 0, t0)
  {
    assert [] + ScanFlushes(t0, events, 0, 0, sym) == ScanFlushes(t0, events, 0, 0, sym);
  }

  /** One turn of the loop of `scan_chart` keeps `Progress`. */
  lemma ProgressStep(events: seq<TimedEvent>, t0: Timing, sym: char, write: bool, v: Timing, w: Timing,
                     out: seq<Token>, o: seq<Token>, flushes: seq<Flush>, fs: seq<Flush>, imb: nat, imbNext: nat, i: nat)
    requires i < |events| && Progress(events, t0, sym, write, out, flushes, imb, i, v)
    requires imb <= imbNext <= i
    requires ScanFrom(v, events, i, imb, sym) == ScanFrom(w, events, i + 1, imbNext, sym)
    requires ScanFlushes(v, events, i, imb, sym) == fs + ScanFlushes(w, events, i + 1, imbNext, sym)
    requires fs == [] ==> imbNext == imb
    requires fs != [] ==> imbNext == i && fs[0].lo == imb && fs[0].hi == i
    requires forall k | 0 < k < |fs| :: fs[k].lo == i && fs[k].hi == i
    requires !write ==> o == []
    requires write ==> MeasureEnds(o) == |fs|
    requires NonDecreasing(events) && EndsBefore(events, imb, i, v.TickMeasureEnd()) ==>
      FlushesEndBefore(events, fs) && EndsBefore(events, imbNext, i + 1, w.TickMeasureEnd())
    requires write && EndsBefore(events, imb, i, v.TickMeasureEnd()) ==> CellCount(o) == GridCells(events, fs)
    ensures Progress(events, t0, sym, write, out + o, flushes + fs, imbNext, i + 1, w)
  {
    if write {
      MeasureEndsAppend(out, o);
      CellCountAppend(out, o);
    }
    GridCellsAppend(events, flushes, fs);
    if NonDecreasing(events) {
      FlushesEndBeforeAppend(events, flushes, fs);
    }
    ContiguousAppend(flushes, imb, fs, i);
    CallsSoFar(flushes, fs, ScanFlushes(v, events, i, imb, sym), ScanFlushes(w, events, i + 1, imbNext, sym),
               ScanFlushes(t0, events, 0, 0, sym));
  }

  /** The calls made so far, then those made from here on, are all of
      them: one more turn moves its calls from the second part to the
      first. */
  lemma CallsSoFar(done: seq<Flush>, step: seq<Flush>, rest: seq<Flush>, later: seq<Flush>, all: seq<Flush>)
    requires done + rest == all && rest == step + later
    ensures (done + step) + later == all
  {
    assert done + (step + later) == (done + step) + later;
  }

  /** What `Progress` says once every event has been stepped over. */
  lemma ProgressEnd(events: seq<TimedEvent>, t0: Timing, sym: char, write: bool, out: seq<Token>,
                    flushes: seq<Flush>, imb: nat, v: Timing)
    requires Progress(events, t0, sym, write, out, flushes, imb, |events|, v)
    ensures imb <= |events|
    ensures ScanFrom(v, events, |events|, imb, sym) == ScanFrom(t0, events, 0, 0, sym)
    ensures flushes + [Flush(imb, |events|, v.tickMeasureBegin, v.TicksPerMeasure())] == ScanFlushes(t0, events, 0, 0, sym)
    ensures Contiguous(flushes, imb)
    ensures forall k | 0 <= k < |flushes| :: flushes[k].hi <= imb
    ensures !write ==> out == []
    ensures write ==> MeasureEnds(out) == |flushes|
    ensures NonDecreasing(events) ==>
      FlushesEndBefore(events, flushes) && EndsBefore(events, imb, |events|, v.TickMeasureEnd())
    ensures NonDecreasing(events) && write ==> CellCount(out) == GridCells(events, flushes)
  {
  }

  // ---------------------------------------------------------------------
  // The class

  class ChartState {
    const ticksPerBeat: Pos
    var tsignUpper: nat
    var tsignLower: Pos
    var usecPerBeat: nat
    var tickMeasureBegin: nat
    var tickCheckpoint: int
    var usecCheckpoint: int
    var balloons: seq<Balloon>

    function Value(): Timing
      reads this
    {
      Timing(ticksPerBeat, tsignUpper, tsignLower, usecPerBeat,
             tickMeasureBegin, tickCheckpoint, usecCheckpoint, balloons)
    }

    /** `ChartState(ticks_per_beat)` (midi_to_tja.py:61-70). */
    constructor (ticksPerBeat: Pos)
      ensures Value() == InitialTiming(ticksPerBeat)
    {
      this.ticksPerBeat := ticksPerBeat;
      tsignUpper, tsignLower := 4, 4;
      usecPerBeat := DefaultUsecPerBeat;
      tickMeasureBegin, tickCheckpoint, usecCheckpoint := 0, 0, 0;
      balloons := [];
    }

    /** `copy(chart_state)`: an independent state with the same fields. */
    method Copy() returns (c: ChartState)
      ensures fresh(c) && c.Value() == Value()
    {
      c := new ChartState(ticksPerBeat);
      c.tsignUpper, c.tsignLower, c.usecPerBeat := tsignUpper, tsignLower, usecPerBeat;
      c.tickMeasureBegin, c.tickCheckpoint, c.usecCheckpoint := tickMeasureBegin, tickCheckpoint, usecCheckpoint;
      c.balloons := balloons;
    }

    /** `sync_measure_begin_state` (midi_to_tja.py:72-79): an event at the
        start of the current measure sets the signature or the tempo it
        carries.  `scan_chart` does not call it. */
    method SyncMeasureBeginState(e: TimedEvent)
      modifies this
      ensures e.tick != old(tickMeasureBegin) || !(e.msg.TimeSignature? || e.msg.SetTempo?) ==>
        Value() == old(Value())
      ensures e.tick == old(tickMeasureBegin) && e.msg.TimeSignature? ==>
        Value() == old(Value()).(tsignUpper := e.msg.numerator, tsignLower := e.msg.denominator)
      ensures e.tick == old(tickMeasureBegin) && e.msg.SetTempo? ==>
        Value() == old(Value()).(usecPerBeat := e.msg.tempo)
    {
      if e.tick != tickMeasureBegin {
        return;
      }
      if e.msg.TimeSignature? {
        tsignUpper, tsignLower := e.msg.numerator, e.msg.denominator;
      } else if e.msg.SetTempo? {
        usecPerBeat := e.msg.tempo;
      }
    }

    /** `advance_usec`: move the checkpoint to `tick` without changing the
        time `tick` maps to. */
    method AdvanceUsec(tick: int)
      modifies this
      ensures Value() == old(Value()).(usecCheckpoint := old(Value().UsecAt(tick)), tickCheckpoint := tick)
      ensures Value().UsecAt(tick) == old(Value().UsecAt(tick))
    {
      usecCheckpoint := Value().UsecAt(tick);
      tickCheckpoint := tick;
    }

    /** `advance_measure`: the next measure starts where the current one
        ends, with the signature in force now. */
    method AdvanceMeasure()
      modifies this
      ensures Value() == old(Value()).(tickMeasureBegin := old(Value().TickMeasureEnd()))
      ensures tickMeasureBegin > old(tickMeasureBegin)
    {
      tickMeasureBegin := Value().TickMeasureEnd();
    }

    /** One event of the loop of `scan_measure` (midi_to_tja.py:146-169):
        its state change, the symbol the pending cell carries afterwards, and
        the directive it prints, if any. */
    method ScanEvent(e: TimedEvent, sym: char, symLast: char) returns (symNext: char, directive: Token, hasDirective: bool)
      modifies this
      ensures Value() == ApplyEvent(old(Value()), e, sym)
      ensures symNext == NextSymbol(old(Value()), e, sym, symLast)
      ensures hasDirective <==> e.msg.TimeSignature? || e.msg.SetTempo?
      ensures e.msg.TimeSignature? ==> directive == MeasureDirective(e.msg.numerator, e.msg.denominator)
      ensures e.msg.SetTempo? ==> directive == TempoDirective(e.msg.tempo)
    {
      symNext, directive, hasDirective := symLast, MeasureEnd, false;
      match e.msg {
        case TimeSignature(n, d) =>
          tsignUpper, tsignLower := n, d;
          directive, hasDirective := MeasureDirective(n, d), true;
        case SetTempo(tempo) =>
          AdvanceUsec(e.tick);
          usecPerBeat := tempo;
          directive, hasDirective := TempoDirective(tempo), true;
        case NoteOn(_, note, _) =>
          if !IsLongNote(sym) {
            symNext := sym;
          } else if !(|balloons| > 0 && balloons[|balloons| - 1].usecEnd < 0) {
            symNext := sym;
            balloons := balloons + [Balloon(note, Value().UsecAt(e.tick), -1)];
          }
        case NoteOff(_, _) =>
          if IsLongNote(sym) && |balloons| > 0 && balloons[|balloons| - 1].usecEnd < 0 {
            symNext := '8';
            balloons := CloseLast(balloons, Value().UsecAt(e.tick));
          }
      }
    }

    /** One event of the loop of `scan_measure` with its directive printed
        on a line of its own (midi_to_tja.py:146-169). */
    method ScanAndPrint(e: TimedEvent, sym: char, symLast: char, out: seq<Token>, isLineStart: bool, write: bool)
      returns (symNext: char, o: seq<Token>, lineStart: bool)
      modifies this
      ensures Value() == ApplyEvent(old(Value()), e, sym)
      ensures symNext == NextSymbol(old(Value()), e, sym, symLast)
      ensures lineStart == (isLineStart || e.msg.TimeSignature? || e.msg.SetTempo?)
      ensures !write || !(e.msg.TimeSignature? || e.msg.SetTempo?) ==> o == out
      ensures write && e.msg.TimeSignature? ==>
        o == out + (if isLineStart then [] else [LineBreak]) + [MeasureDirective(e.msg.numerator, e.msg.denominator)]
      ensures write && e.msg.SetTempo? ==>
        o == out + (if isLineStart then [] else [LineBreak]) + [TempoDirective(e.msg.tempo)]
      ensures write ==> CellCount(o) == CellCount(out) && MeasureEnds(o) == MeasureEnds(out)
      ensures write ==> CellText(o) == CellText(out)
      ensures write ==> Placed(o) == Placed(out) + (if HasDirective(e) then [(CellCount(out), DirectiveOf(e))] else [])
    {
      var directive, hasDirective;
      symNext, directive, hasDirective := ScanEvent(e, sym, symLast);
      o, lineStart := out, isLineStart;
      if hasDirective {
        o := EmitDirective(out, isLineStart, directive, write);
        lineStart := true;
      }
    }

    /** One turn of the event loop of `scan_measure`
        (midi_to_tja.py:136-169): the cells up to event `i`, then the event;
        it keeps the loop's invariants. */
    method ScanNext(events: seq<TimedEvent>, lo: nat, hi: nat, i: nat, sym: char, write: bool,
                    tickBeg: int, tickGcd: Pos, ndiv: int, ghost t0: Timing,
                    out: seq<Token>, idivLast: nat, symLast: char, isLineStart: bool)
      returns (o: seq<Token>, idivNext: nat, symNext: char, lineStart: bool)
      requires lo <= i < hi <= |events|
      requires Value() == ApplyEvents(t0, events[lo..i], sym)
      requires CellsSoFar(events, lo, hi, i, write, tickBeg, tickGcd, ndiv, out, idivLast)
      requires SymbolsSoFar(t0, events, lo, hi, i, sym, write, tickBeg, tickGcd, out, idivLast, symLast)
      requires DirectivesSoFar(events, lo, hi, i, write, tickBeg, tickGcd, out, idivLast)
      modifies this
      ensures Value() == ApplyEvents(t0, events[lo..i + 1], sym)
      ensures CellsSoFar(events, lo, hi, i + 1, write, tickBeg, tickGcd, ndiv, o, idivNext)
      ensures SymbolsSoFar(t0, events, lo, hi, i + 1, sym, write, tickBeg, tickGcd, o, idivNext, symNext)
      ensures DirectivesSoFar(events, lo, hi, i + 1, write, tickBeg, tickGcd, o, idivNext)
    {
      var e := events[i];
      var idiv := CellIndex(e.tick, tickBeg, tickGcd);
      var out1, sym1;
      out1, idivNext, sym1, lineStart := CellsUpTo(out, symLast, idivLast, idiv, isLineStart, write);
      symNext, o, lineStart := ScanAndPrint(e, sym, sym1, out1, lineStart, write);
      ScanStep(t0, events, lo, hi, i, sym, write, tickBeg, tickGcd, ndiv, out, idivLast, symLast, out1, sym1, o, idivNext, symNext);
      ApplyEventsNext(t0, events, lo, i, sym);
    }

    /** The event loop of `scan_measure` (midi_to_tja.py:134-169), on the
        grid of `ndiv` cells of `tickGcd` ticks from `tickBeg`: the cells up
        to each event, then the event itself.  Gives the index of the pending
        cell and its symbol; on a range in order from `tickBeg`, the cells
        written and the pending one hold their `CellSymbol`. */
    method ScanEvents(events: seq<TimedEvent>, lo: nat, hi: nat, sym: char, write: bool,
                      tickBeg: int, tickGcd: Pos, ndiv: int)
      returns (out: seq<Token>, idivLast: nat, symLast: char)
      requires lo <= hi <= |events|
      requires ndiv >= 1
      modifies this
      ensures Value() == ApplyEvents(old(Value()), events[lo..hi], sym)
      ensures !write ==> out == []
      ensures write ==> MeasureEnds(out) == 0 && CellCount(out) == idivLast
      ensures lo == hi ==> idivLast == 0
      ensures EndsBefore(events, lo, hi, tickBeg + ndiv * tickGcd) ==> idivLast < ndiv
      ensures SymbolsSoFar(old(Value()), events, lo, hi, hi, sym, write, tickBeg, tickGcd, out, idivLast, symLast)
      ensures DirectivesSoFar(events, lo, hi, hi, write, tickBeg, tickGcd, out, idivLast)
    {
      ghost var t0 := Value();
      var isLineStart := true;
      idivLast := 0;
      symLast := '0';
      out := [];
      var i := lo;
      ScanStart(t0, events, lo, hi, sym, write, tickBeg, tickGcd, ndiv);
      while i < hi
        invariant lo <= i <= hi
        invariant Value() == ApplyEvents(t0, events[lo..i], sym)
        invariant CellsSoFar(events, lo, hi, i, write, tickBeg, tickGcd, ndiv, out, idivLast)
        invariant SymbolsSoFar(t0, events, lo, hi, i, sym, write, tickBeg, tickGcd, out, idivLast, symLast)
        invariant DirectivesSoFar(events, lo, hi, i, write, tickBeg, tickGcd, out, idivLast)
      {
        out, idivLast, symLast, isLineStart :=
          ScanNext(events, lo, hi, i, sym, write, tickBeg, tickGcd, ndiv, t0, out, idivLast, symLast, isLineStart);
        i := i + 1;
      }
    }

    /** `scan_measure(events, range(lo, hi), tja)` (midi_to_tja.py:97-175):
        quantize one measure onto the grid of its gcd and print it. */
    method ScanMeasure(events: seq<TimedEvent>, lo: nat, hi: nat, sym: char, write: bool)
      returns (out: seq<Token>)
      requires lo <= hi <= |events|
      modifies this
      ensures Value() == ApplyEvents(old(Value()), events[lo..hi], sym)
      ensures !write ==> out == []
      ensures write ==> MeasureEnds(out) == 1 && out[|out| - 1] == MeasureEnd
      ensures var length := old(Value().TicksPerMeasure());
        write && EndsBefore(events, lo, hi, old(tickMeasureBegin) + length) ==>
        CellCount(out) == if lo < hi then length / MeasureGcd(events, lo, hi, old(tickMeasureBegin), length) else 0
      ensures var length := old(Value().TicksPerMeasure());
        var g := MeasureGcd(events, lo, hi, old(tickMeasureBegin), length);
        write && lo < hi && EndsBefore(events, lo, hi, old(tickMeasureBegin) + length)
          && InOrder(events, lo, hi) ==>
        && |CellText(out)| == length / g
        && forall j | 0 <= j < length / g ::
             CellText(out)[j] == CellSymbol(old(Value()), events, lo, hi, sym, old(tickMeasureBegin), g, j)
      ensures var g := MeasureGcd(events, lo, hi, old(tickMeasureBegin), old(Value().TicksPerMeasure()));
        write && InOrder(events, lo, hi) ==>
        Placed(out) == EventDirectives(events, lo, hi, old(tickMeasureBegin), g)
    {
      ghost var t0 := Value();
      var tickBeg := tickMeasureBegin;
      var length := Value().TicksPerMeasure();
      var tickEnd := tickBeg + length;

      var tickGcd := GridUnit(events, lo, hi, tickBeg, length);
      var ndiv := (tickEnd - tickBeg) / tickGcd;
      assert ndiv * tickGcd == length;
      var idivLast, symLast;
      out, idivLast, symLast := ScanEvents(events, lo, hi, sym, write, tickBeg, tickGcd, ndiv);

      out := CloseMeasure(t0, events, lo, hi, sym, write, tickBeg, tickGcd, ndiv, out, idivLast, symLast);
    }

    /** The measure stepping of `scan_chart` before event `i`
        (midi_to_tja.py:182-185): flush the pending range `[imb, i)` and
        advance while the current measure ends at or before the event. */
    method StepOver(events: seq<TimedEvent>, imb: nat, i: nat, sym: char, write: bool)
      returns (out: seq<Token>, imbNext: nat, ghost flushes: seq<Flush>)
      requires imb <= i < |events|
      modifies this
      ensures (Value(), imbNext) == StepMeasures(old(Value()), events, imb, i, events[i].tick, sym)
      ensures flushes == StepFlushes(old(Value()), events, imb, i, events[i].tick, sym)
      ensures flushes == [] <==> old(Value().TickMeasureEnd()) > events[i].tick
      ensures flushes == [] ==> Value() == old(Value()) && imbNext == imb
      ensures flushes != [] ==>
        imbNext == i && flushes[0] == Flush(imb, i, old(tickMeasureBegin), old(Value().TicksPerMeasure()))
      ensures forall k | 0 < k < |flushes| :: flushes[k].lo == i && flushes[k].hi == i
      ensures !write ==> out == []
      ensures write ==> MeasureEnds(out) == |flushes|
      ensures EndsBefore(events, imb, i, old(Value().TickMeasureEnd())) ==> FlushesEndBefore(events, flushes)
      ensures write && EndsBefore(events, imb, i, old(Value().TickMeasureEnd())) ==>
        CellCount(out) == GridCells(events, flushes)
    {
      ghost var t0 := Value();
      var tick := events[i].tick;
      out, imbNext, flushes := [], imb, [];
      assert [] + StepFlushes(t0, events, imb, i, tick, sym) == StepFlushes(t0, events, imb, i, tick, sym);
      while Value().TickMeasureEnd() <= tick
        invariant OverState(events, t0, imb, i, sym, Value(), imbNext, flushes)
        invariant OverOutput(events, t0, imb, i, write, out, flushes)
        decreases tick - tickMeasureBegin
      {
        ghost var v := Value();
        ghost var f := Flush(imbNext, i, tickMeasureBegin, Value().TicksPerMeasure());
        var o := ScanMeasure(events, imbNext, i, sym, write);
        AdvanceMeasure();
        OverStateStep(events, t0, imb, i, sym, v, Value(), imbNext, flushes, f);
        OverOutputStep(events, t0, imb, i, write, v, imbNext, out, o, flushes, f);
        out, flushes := out + o, flushes + [f];
        imbNext := i;
      }
      OverEnd(events, t0, imb, i, sym, write, Value(), imbNext, out, flushes);
    }

    /** One turn of the loop of `scan_chart` (midi_to_tja.py:179-191): step
        over the measures that end at or before event `i`, then apply a time
        signature that sits at the start of the measure. */
    method ChartStep(events: seq<TimedEvent>, imb: nat, i: nat, sym: char, write: bool)
      returns (out: seq<Token>, imbNext: nat, ghost flushes: seq<Flush>)
      requires imb <= i < |events|
      modifies this
      ensures imb <= imbNext <= i
      ensures ScanFrom(old(Value()), events, i, imb, sym) == ScanFrom(Value(), events, i + 1, imbNext, sym)
      ensures flushes == StepFlushes(old(Value()), events, imb, i, events[i].tick, sym)
      ensures ScanFlushes(old(Value()), events, i, imb, sym) == flushes + ScanFlushes(Value(), events, i + 1, imbNext, sym)
      ensures flushes == [] ==> imbNext == imb
      ensures flushes != [] ==> imbNext == i && flushes[0].lo == imb && flushes[0].hi == i
      ensures forall k | 0 < k < |flushes| :: flushes[k].lo == i && flushes[k].hi == i
      ensures !write ==> out == []
      ensures write ==> MeasureEnds(out) == |flushes|
      ensures NonDecreasing(events) && EndsBefore(events, imb, i, old(Value().TickMeasureEnd())) ==>
        FlushesEndBefore(events, flushes) && EndsBefore(events, imbNext, i + 1, Value().TickMeasureEnd())
      ensures write && EndsBefore(events, imb, i, old(Value().TickMeasureEnd())) ==>
        CellCount(out) == GridCells(events, flushes)
    {
      var e := events[i];
      out, imbNext, flushes := StepOver(events, imb, i, sym, write);
      ghost var before := Value();
      // a time signature at the start of the measure applies at once
      if e.tick == tickMeasureBegin && e.msg.TimeSignature? {
        tsignUpper, tsignLower := e.msg.numerator, e.msg.denominator;
      }
      assert Value() == SyncSignature(before, e);
      if NonDecreasing(events) && EndsBefore(events, imb, i, old(Value().TickMeasureEnd())) {
        PendingStaysBefore(events, imbNext, i, before, Value());
      }
    }

    /** The loop of `scan_chart` (midi_to_tja.py:178-191): every event
        but those of the last, still pending, range `[imb, |events|)` has
        been quantized. */
    method ScanMeasuresBefore(events: seq<TimedEvent>, sym: char, write: bool)
      returns (out: seq<Token>, imb: nat, ghost flushes: seq<Flush>)
      modifies this
      ensures imb <= |events|
      ensures ScanFrom(Value(), events, |events|, imb, sym) == ScanFrom(old(Value()), events, 0, 0, sym)
      ensures flushes + [Flush(imb, |events|, tickMeasureBegin, Value().TicksPerMeasure())]
        == ScanFlushes(old(Value()), events, 0, 0, sym)
      ensures Contiguous(flushes, imb)
      ensures forall k | 0 <= k < |flushes| :: flushes[k].hi <= imb
      ensures !write ==> out == []
      ensures write ==> MeasureEnds(out) == |flushes|
      ensures NonDecreasing(events) ==> FlushesEndBefore(events, flushes)
      ensures NonDecreasing(events) ==> EndsBefore(events, imb, |events|, Value().TickMeasureEnd())
      ensures NonDecreasing(events) && write ==> CellCount(out) == GridCells(events, flushes)
    {
      ghost var t0 := Value();
      imb := 0;
      out, flushes := [], [];
      var i := 0;
      ProgressStart(events, t0, sym, write);
      while i < |events|
        invariant i <= |events|
        invariant Progress(events, t0, sym, write, out, flushes, imb, i, Value())
      {
        var o, imbNext, fs := StepWithProgress(events, t0, imb, i, sym, write, out, flushes);
        out, flushes, imb := out + o, flushes + fs, imbNext;
        i := i + 1;
      }
      ProgressEnd(events, t0, sym, write, out, flushes, imb, Value());
    }

    /** `ChartStep` as a turn of the loop of `scan_chart`: it keeps
        `Progress`. */
    method StepWithProgress(events: seq<TimedEvent>, ghost t0: Timing, imb: nat, i: nat, sym: char, write: bool,
                            ghost out0: seq<Token>, ghost flushes0: seq<Flush>)
      returns (out: seq<Token>, imbNext: nat, ghost flushes: seq<Flush>)
      requires i < |events| && Progress(events, t0, sym, write, out0, flushes0, imb, i, Value())
      modifies this
      ensures Progress(events, t0, sym, write, out0 + out, flushes0 + flushes, imbNext, i + 1, Value())
    {
      ghost var v := Value();
      out, imbNext, flushes := ChartStep(events, imb, i, sym, write);
      ProgressStep(events, t0, sym, write, v, Value(), out0, out, flushes0, flushes, imb, imbNext, i);
    }

    /** `scan_chart(events, tja)` (midi_to_tja.py:177-194): split the events
        into measures and quantize each.  The ghost `flushes` records the
        `scan_measure` calls: they partition the events, each ends its
        measure with ',', and on events in tick order each got only events
        before the end of its measure, so the chart has exactly the cells of
        their grids. */
    method ScanChart(events: seq<TimedEvent>, sym: char, write: bool)
      returns (out: seq<Token>, ghost flushes: seq<Flush>)
      modifies this
      ensures Value() == ScanFrom(old(Value()), events, 0, 0, sym)
      ensures flushes == ScanFlushes(old(Value()), events, 0, 0, sym)
      ensures Partition(flushes, |events|)
      ensures !write ==> out == []
      ensures write ==> MeasureEnds(out) == |flushes|
      ensures NonDecreasing(events) ==> FlushesEndBefore(events, flushes)
      ensures NonDecreasing(events) && write ==> CellCount(out) == GridCells(events, flushes)
    {
      var imb, o;
      ghost var f;
      out, imb, flushes := ScanMeasuresBefore(events, sym, write);
      // the events from the last measure start on form the final measure
      o, f := ScanLastMeasure(events, imb, sym, write);
      LastMeasureJoins(events, flushes, imb, f, out, o, write);
      out, flushes := out + o, flushes + [f];
    }

    /** The last `scan_measure` call of `scan_chart` (midi_to_tja.py:193-194):
        the pending range up to the end of the events. */
    method ScanLastMeasure(events: seq<TimedEvent>, imb: nat, sym: char, write: bool)
      returns (out: seq<Token>, ghost f: Flush)
      requires imb <= |events|
      modifies this
      ensures Value() == ScanFrom(old(Value()), events, |events|, imb, sym)
      ensures f == Flush(imb, |events|, old(tickMeasureBegin), old(Value().TicksPerMeasure()))
      ensures !write ==> out == []
      ensures write ==> MeasureEnds(out) == 1
      ensures EndsBefore(events, imb, |events|, old(Value().TickMeasureEnd())) ==>
        FlushesEndBefore(events, [f]) && (write ==> CellCount(out) == GridCells(events, [f]))
    {
      assert events[imb..|events|] == events[imb..];
      f := Flush(imb, |events|, tickMeasureBegin, Value().TicksPerMeasure());
      out := ScanMeasure(events, imb, |events|, sym, write);
      assert GridCells(events, [f]) == FlushCells(events, f) by {
        assert [f][..0] == [];
      }
    }
  }
}
