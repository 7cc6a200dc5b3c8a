# midi2tja in Dafny

This project models the chart engine of midi2tja's three converters. Each one turns the timing and note events of a MIDI file into the body of a TJA chart.

- **midi_to_tja.py** does three things:
  - it assigns note-ons to per-channel polyphonic lanes, cutting and gapping overlaps;
  - it regenerates each lane's note-on/note-off pairs;
  - it merges each lane with the timing events and writes one chart per lane, with the `BALLOON:` records of a silent scan.
- **MIDI_to_TJA_balloon.py** does the same with `None` tombstone slots. Its regeneration clamps each note before the next one in its lane.
- **MIDI_Timing_to_TJA.py** writes one chart of the timing events alone.

All three quantize a measure the same way:
- the offsets of its events from the measure start, plus the measure length, are de-duplicated in place;
- their gcd is the grid unit;
- the measure is written as cells of that unit, with `#MEASURE`/`#BPMCHANGE` directives between cells and a `,` at the end.

A measure lasts `max(1, ticks_per_beat * 4 * upper // lower)` ticks. The next measure starts where the current one ends, with the signature in force at that moment.

How the model is laid out:
- **Mutating objects become classes.** `ChartState` and `TmState` are classes whose methods update fields. The lane assigners are classes too, whose fields are sequences and maps of note ids.
- **Each class has a value view.** Every class is mirrored by a datatype value (`Timing`, `Tm`, `Polyphony`, `Tombstones`). Functions on that value specify the methods.
- **Output is a token sequence.** What the converters print is a sequence of `Token`s. A `write` flag stands for the silent pass (`tja=None`).
- **Note objects live in an arena.** `ChartEvent` note objects that are shared between slots and lanes are an arena `notes` indexed by id. A write through a slot is therefore seen by the lane, as with Python references.
- **Arithmetic matches Python.** Python's `//` with a positive divisor is Dafny's `/`. `ticks_per_beat` and signature denominators are positive.

Modules:

| module | file | content |
|---|---|---|
| `Events` | events.dfy | messages, tokens, counting of cells and measure ends |
| `Quantize` | quantize.dfy | offsets, in-place de-duplication, gcd |
| `Merge` | merge.dfy | `merge_sorted` |
| `ChartScan` | chart.dfy | `ChartState` |
| `MidiToTja` | midi_to_tja.dfy | lane pass, regeneration, `main` |
| `MidiToTjaBalloon` | balloon.dfy | tombstone lanes, clamped regeneration, `main` |
| `MidiTimingToTja` | timing.dfy | `TmState`, `emit_measure`, `main` |

Where the code and its documentation disagree, the model follows the code:

- **A `time_signature` event strictly inside a measure does not end that measure early.** The comment at MIDI_Timing_to_TJA.py:119 (midi_to_tja.py:181) says such changes are treated as next-measure. In fact the event is applied while the measure is written, and `advance_measure` then computes the current measure's end with the new signature from the old start. The measure can stretch past later events, which are then written in a measure that starts after them. `MidiTimingToTja.MidMeasureSignatureOvershoots` is a concrete instance. In `midi_to_tja.py` such an event gets a negative cell index, writes no cell and counts on cell 0 of that measure: its symbol is the pending one there and its directive stands before that cell (`Events.FoldedCell`, `ChartScan.MidMeasureSignatureFoldsIntoCellZero`). For this reason the exact cell counts of whole charts are stated for inputs whose signature changes sit at the start of the measure that gets them (`SignaturesAtMeasureStarts`).
- **An empty range writes only the `,` of the measure.** The timing converter writes no cell at all when every event of a measure lies on its first cell. `ChartScan` writes the full grid whenever the range is non-empty.

## Model

| member | source | states |
|---|---|---|
| ChartScan.IsLongNote | midi_to_tja.py:18-26 | every long note symbol is a known note symbol |
| ChartScan.IsBalloonNote | midi_to_tja.py:19-29 | every balloon symbol is a long note symbol |
| ChartScan.Timing.TicksPerMeasure | midi_to_tja.py:81-82 | the measure length is at least 1 and otherwise the floor of `ticks_per_beat*4*upper/lower` (bounded from both sides) |
| ChartScan.Timing.TickMeasureEnd | midi_to_tja.py:84-85 | the measure end lies strictly after the measure start |
| ChartScan.Timing.UsecAt | midi_to_tja.py:87-88 | the time at a tick is the checkpoint time plus the floor of the scaled tick distance; at the checkpoint tick it is the checkpoint time |
| ChartScan.UsecAtMonotone | midi_to_tja.py:87-88 | later ticks never map to earlier times |
| ChartScan.ReanchorKeepsTime | midi_to_tja.py:90-92 | re-anchoring at a tick keeps that tick's time, and after any tempo change no later tick maps before it |
| ChartScan.BalloonsKeepOnlyLastOpen | midi_to_tja.py:156-169 | across any run of events only the last balloon record can be open, no record is dropped, and closed records are never rewritten |
| ChartScan.NoBalloonsWithoutLongNote | midi_to_tja.py:156-166 | with a hit note symbol the scan never opens a balloon record |
| ChartScan.SignatureAfterEvents | midi_to_tja.py:146-148 | after a run of events the signature is that of its last `time_signature` event, or the one before the run if it has none |
| ChartScan.TempoAfterEvents | midi_to_tja.py:151-153 | a run without `set_tempo` leaves tempo and checkpoint unchanged |
| ChartScan.NextSymbol | midi_to_tja.py:156-168 | the pending cell symbol changes only on a note event, to the chart symbol or, at the end of a long note, to '8'; a hit note-on always sets it |
| ChartScan.FoldedCellMonotone | midi_to_tja.py:134-144 | events in tick order act on cells in order; an event from the measure start on acts on the cell its tick falls on, and one before it (negative `idiv`, which never passes `idiv_last` = 0) on cell 0 |
| ChartScan.MidMeasureSignatureFoldsIntoCellZero | midi_to_tja.py:137-144 | an instance: after a change to 8/4 at tick 100 at 480 ticks per beat, the note-on at tick 1920 is pending when the next measure starts at 3840; its cell index is negative and its hit symbol lands in cell 0 of that measure |
| ChartScan.CellSymbolUnset | midi_to_tja.py:136-175 | a cell no event of the range acts on is written as '0' |
| ChartScan.HitCellsMarkNoteOns | midi_to_tja.py:156-159 | with a hit symbol a cell holds the symbol exactly when a note-on acts on it (the cell its tick falls on, or cell 0 for a tick before the measure start), and '0' otherwise |
| ChartScan.LongCellsMarkNoteEvents | midi_to_tja.py:160-169 | with a long symbol a cell holds the symbol, '8' or '0', the symbol only where a note-on acts (its `FoldedCell`) and '8' only where a note-off acts |
| ChartScan.CloseMeasure | midi_to_tja.py:171-175 | the closing cells and the `,`: for events before the measure end a non-empty range fills the grid, an empty one writes none; on such events in tick order every cell holds its `CellSymbol`, events before the measure start counting on cell 0; directive places are kept |
| ChartScan.ApplyEventSound | midi_to_tja.py:146-169 | one event at or after the current time keeps the balloon records sound (only the last open, closed ones end no earlier than they start, no negative time) |
| ChartScan.ApplyEventsSound | midi_to_tja.py:136-169 | a tick-ordered run of events keeps the balloon records sound |
| ChartScan.StepMeasures | midi_to_tja.py:182-185 | stepping over measures ends with a measure that ends after the event's tick and a pending range start inside the old pending range |
| ChartScan.StepMeasuresSound | midi_to_tja.py:182-185 | stepping over measures keeps the balloon records sound |
| ChartScan.ScanFromSound | midi_to_tja.py:177-194 | the records `scan_chart` leaves on sorted events are sound |
| ChartScan.ChartBalloonsSound | midi_to_tja.py:335-343 | from a fresh state with any seeded tempo, every closed record the silent scan produces has `0 <= usec_abs <= usec_end_abs`, so the balloon durations are never negative, and only the last record can be open |
| ChartScan.PartitionCoversOnce | midi_to_tja.py:177-194 | in a partition of the events into `scan_measure` ranges, every event index lies in exactly one range |
| ChartScan.RangesAscend | midi_to_tja.py:182-185 | contiguous ranges ascend |
| ChartScan.EmitCells | midi_to_tja.py:141 | writes the pending symbol followed by `n-1` zeros without a line end: `n` cells whose symbols extend the cell text, no measure end, no directive |
| ChartScan.CellsUpTo | midi_to_tja.py:139-144 | on a later cell it writes exactly one token, the last symbol then zeros up to that cell, resets the symbol to '0' and leaves the line start; otherwise nothing changes; no directive is written |
| ChartScan.EmitDirective | midi_to_tja.py:128-132 | a directive is preceded by a line break exactly when the line is not at its start; no cell and no measure end is written, and the directive is placed after the cells written so far |
| ChartScan.ChartState.constructor | midi_to_tja.py:61-70 | a fresh state: 4/4, 120 BPM, everything at 0, no balloon records |
| ChartScan.ChartState.SyncMeasureBeginState | midi_to_tja.py:72-79 | only an event at the measure start changes the state: the signature or the tempo it carries |
| ChartScan.ChartState.Copy | midi_to_tja.py:337 | a new object with the same field values |
| ChartScan.ChartState.AdvanceUsec | midi_to_tja.py:90-92 | the checkpoint moves to the tick and that tick's time is unchanged |
| ChartScan.ChartState.AdvanceMeasure | midi_to_tja.py:94-95 | the measure start moves to the measure end, strictly forward; nothing else changes |
| ChartScan.ChartState.ScanEvent | midi_to_tja.py:146-169 | the event's state change (`ApplyEvent`), the next cell symbol and the directive it prints exactly for `time_signature` and `set_tempo` |
| ChartScan.ChartState.ScanAndPrint | midi_to_tja.py:146-155 | as `ScanEvent`, plus the written directive with its line break and the line-start flag afterwards; the directive, if any, is placed after the cells written so far |
| ChartScan.ChartState.ScanEvents | midi_to_tja.py:134-169 | the state after the loop is the run of `ApplyEvent`; no measure end is written; the cells written equal the last cell index; for events before the measure end that index stays inside the grid; on events in tick order, every written cell holds `CellSymbol` and the directives stand at the cells their events act on, cell 0 for events before the measure start |
| ChartScan.ChartState.ScanMeasure | midi_to_tja.py:97-175 | one measure: the run's state change, exactly one `,` at the end; for events before the measure end exactly `length / gcd` cells for a non-empty range and none for an empty one; on such events in tick order cell `j` holds `CellSymbol` (the symbol of the last event acting on that cell that sets one, else '0'), and each `#MEASURE`/`#BPMCHANGE` stands before the cell its event acts on, in event order; an event before the measure start, left pending by a mid-measure signature change, acts on cell 0 |
| ChartScan.ChartState.ScanNext | midi_to_tja.py:136-169 | one turn of the event loop: the state change of the event and the loop invariants on cells, symbols and directive places advance by one event |
| ChartScan.ChartState.StepOver | midi_to_tja.py:182-185 | the state and pending range are those of `StepMeasures`; one `,` per measure stepped; the first flushed range is the pending one and the rest are empty; cells are the grid cells of those ranges |
| ChartScan.ChartState.ChartStep | midi_to_tja.py:180-191 | one iteration of `scan_chart`'s loop preserves the final state `ScanFrom`; its `scan_measure` calls are exactly the `StepFlushes` of the old state, each with the range, measure start and measure length in force, and they are the head of the remaining `ScanFlushes`; the cell and measure accounting is kept |
| ChartScan.ChartState.StepWithProgress | midi_to_tja.py:180-191 | one iteration of `scan_chart`'s loop keeps the loop invariant `Progress`; it exists so that the loop's own proof stays small |
| ChartScan.ChartState.ScanMeasuresBefore | midi_to_tja.py:178-191 | the loop of `scan_chart`: its `scan_measure` calls followed by the last one (the rest of the events, the final measure start and length) are exactly `ScanFlushes` of the initial state; the ranges are contiguous from 0, one `,` each, with the grid cells of each; on sorted events each range ends before its measure end |
| ChartScan.ChartState.ScanLastMeasure | midi_to_tja.py:193-194 | the last call gets the rest of the events with the measure start and length in force; the final state is `ScanFrom`; one `,` and, on events before the measure end, its grid cells |
| ChartScan.ChartState.ScanChart | midi_to_tja.py:177-194 | the final state is `ScanFrom`; the `scan_measure` calls are exactly `ScanFlushes` of the initial state (range, measure start and length of each) and partition the events; one `,` per call; on sorted events each call gets only events before its measure end and the chart has exactly the grid cells of all calls; the silent pass writes nothing |
| Quantize.Compress | midi_to_tja.py:115-121 | de-duplication keeps the first and the last element and never lengthens the list |
| Quantize.CompressNoRepeats | midi_to_tja.py:115-121 | no two adjacent elements of the result are equal |
| Quantize.CompressSameElements | midi_to_tja.py:115-121 | the result has exactly the elements of the input |
| Quantize.RemoveAdjacentDuplicates | midi_to_tja.py:115-121 | the in-place loop with read and write indices computes `Compress` |
| Quantize.GcdOfDivides | midi_to_tja.py:123 | `gcd(*xs)` divides every argument and is 0 only when every argument is |
| Quantize.GcdOfGreatest | midi_to_tja.py:123 | every positive common divisor of the arguments divides `gcd(*xs)` |
| Quantize.Offsets | midi_to_tja.py:109-113 | the offsets are positive and include the offset of every event after the measure start |
| Quantize.MeasureGcd | midi_to_tja.py:108-123 | the grid unit is the greatest common divisor of `tick_rels`: it divides the measure length and every event offset, and every other common divisor divides it |
| Quantize.GridUnit | midi_to_tja.py:108-123 | building `tick_rels`, de-duplicating in place and taking the gcd gives `MeasureGcd` |
| Quantize.CellInMeasure | midi_to_tja.py:138-139 | a tick inside a measure of `n` cells falls on a cell index in `[0, n)` |
| Merge.MergeSorted | midi_to_tja.py:32-48 | the two-pointer loop and the two `extend` calls compute `Merged` |
| Merge.MergedPermutes | midi_to_tja.py:32-48 | the merge is a permutation of the two inputs together |
| Merge.MergedInterleaves | midi_to_tja.py:32-48 | the merge interleaves the inputs, each keeping its own order |
| Merge.MergedSorted | midi_to_tja.py:32-48 | merging two key-sorted lists gives a key-sorted list |
| Merge.MergedTiesToSecond | midi_to_tja.py:38 | elements of the second list whose key is not above the first key of the first list all come before it: equal keys go to the second list first |
| Merge.KeySortedNonDecreasing | midi_to_tja.py:330-333 | a key-sorted event list is in tick order |
| Merge.NonDecreasingKeySorted | midi_to_tja.py:236-237 | a tick-sorted list of events of one kind is key-sorted |
| Events.NonDecreasingAppend | midi_to_tja.py:295-305 | two tick-ordered lists, the first ending no later than the second starts, append to a tick-ordered list |
| MidiToTja.TicksGap | midi_to_tja.py:225 | 0 for hit notes; otherwise `int(4*ticks_per_beat*u/d)` truncated toward zero, bounded from both sides for either sign |
| MidiToTja.CutView | midi_to_tja.py:251-258 | the cut view of a slot's note changes only its end fields and only for the same pitch: unended becomes ended, and the end is clamped to at least start+gap and otherwise at most the new tick minus the gap |
| MidiToTja.FirstFree | midi_to_tja.py:250-266 | the slot found is free after the cut and every earlier slot is not |
| MidiToTja.LastSounding | midi_to_tja.py:277-279 | the slot found is the last one holding an unended note of that pitch |
| MidiToTja.Seat | midi_to_tja.py:245-269 | keeps the lane state well-formed and adds the new note with end `tick + gap`, unended |
| MidiToTja.NoteOnNext | midi_to_tja.py:243-271 | `note_on` keeps the lane state well-formed and records the new note |
| MidiToTja.NoteOnPlaces | midi_to_tja.py:250-271 | the note takes the first free slot and the old note gets its cut end, or it gets a new slot in long mode; it joins lane `(channel, polypos)` in long mode or at polypos 0; no other channel's slots, no other lane and no other note change (the cut views of the same-pitch slots passed over are dropped), and the key order gains the lane only when it is new |
| MidiToTja.NoteOnSeats | midi_to_tja.py:250-269 | the slot step: the first free slot takes the note and its old note gets the cut end, or a new slot in long mode; no other channel and no other note changes |
| MidiToTja.NoteOnLanes | midi_to_tja.py:270-271 | the lane step: the note joins lane `(channel, polypos)` in long mode or at polypos 0, no other lane changes, and the key order gains the lane only when it is new |
| MidiToTja.NoteOffWellFormed | midi_to_tja.py:273-282 | `note_off` keeps the lane state well-formed |
| MidiToTja.NoteOffEndsHighest | midi_to_tja.py:273-282 | `note_off` ends exactly the highest slot with an unended note of that pitch, at `max(start+gap, tick)`, and changes nothing else; nothing changes when there is none |
| MidiToTja.HitModeNoteOffIdle | midi_to_tja.py:268-282 | in hit mode no slot is ever kept, so `note_off` changes nothing |
| MidiToTja.Dispatch | midi_to_tja.py:284-293 | one raw event keeps the lane state well-formed |
| MidiToTja.HitModeSingleLane | midi_to_tja.py:243-293 | in hit mode every new lane has polypos 0, lanes only grow, and no slot is ever kept |
| MidiToTja.NoteOnInOrder | midi_to_tja.py:243-271 | `note_on` at a tick no earlier than every note keeps the notes in tick order, lane ids ascending and lanes disjoint; in long mode each slot still holds its lane's last note and each lane stays spaced |
| MidiToTja.NoteOnSlots | midi_to_tja.py:250-271 | in long mode, after `note_on` every slot of every channel still holds the last note of its lane |
| MidiToTja.NoteOnSpaced | midi_to_tja.py:250-271 | in long mode, a slot is reused only when the new tick is past its note's cut end, so every lane's notes end strictly before the next one starts |
| MidiToTja.NoteOffInOrder | midi_to_tja.py:273-282 | `note_off` keeps the lane order facts, which hold for any later tick: the note it ends is the one its slot holds, the last of its lane, so no spacing is broken |
| MidiToTja.DispatchInOrder | midi_to_tja.py:284-293 | one raw event at a tick no earlier than every note keeps the lane order facts |
| MidiToTja.AssignAllInOrder | midi_to_tja.py:284-293 | the whole pass over raw events in tick order yields notes in tick order, ascending disjoint lanes and, in long mode, spaced lanes |
| MidiToTja.RegeneratedNonDecreasing | midi_to_tja.py:295-305 | a regenerated lane of spaced notes in tick order is in tick order: each note-off comes before the next note-on |
| MidiToTja.LaneEventsSorted | midi_to_tja.py:295-309 | after a pass over sorted raw events every lane's events are in merge-key order |
| MidiToTja.MainChartsSorted | midi_to_tja.py:240-309 | on raw note events in tick order, every chart the lane pass builds is in merge-key order, so the merge with the timing events is sorted |
| MidiToTja.Lasting | midi_to_tja.py:299-300 | the kept lane positions ascend and each kept note ends strictly after it starts |
| MidiToTja.LastingFilters | midi_to_tja.py:299-300 | a lane position is kept exactly when its note ends after its start; with the ascending positions, the kept notes are the lasting notes in lane order |
| MidiToTja.RegeneratedPairs | midi_to_tja.py:296-305 | the regenerated lane is the kept notes in lane order, each as a note-on at its start followed by a note-off at its end, which is later |
| MidiToTja.HitEvents | midi_to_tja.py:296-305 | in hit mode the lane's events are its note-ons, unchanged |
| MidiToTja.LanePass | midi_to_tja.py:225-293 | the lane pass over every raw event, or over none with symbol '0', leaves a well-formed lane state |
| MidiToTja.LaneAssigner.constructor | midi_to_tja.py:240-241 | empty `note_events` and `on_notes` |
| MidiToTja.LaneAssigner.FindFreeSlot | midi_to_tja.py:250-266 | the loop finds `FirstFree` and the cut view of that slot |
| MidiToTja.LaneAssigner.NoteOn | midi_to_tja.py:243-271 | the new state is `NoteOnNext` of the old one |
| MidiToTja.LaneAssigner.NoteOff | midi_to_tja.py:273-282 | the new state is `NoteOffNext` of the old one |
| MidiToTja.LaneAssigner.AssignLanes | midi_to_tja.py:284-293 | the new state is `AssignAll` of the raw events |
| MidiToTja.LaneAssigner.DispatchEvent | midi_to_tja.py:284-293 | one raw event: the new state is `Dispatch` of the old one |
| MidiToTja.LaneAssigner.RegenerateLane | midi_to_tja.py:297-305 | the loop builds `Regenerated` |
| MidiToTja.LaneAssigner.Charts | midi_to_tja.py:296-309 | one chart per lane in creation order with the regenerated (long) or unchanged (hit) events; a single empty chart on `(0, 0)` when there is no lane |
| MidiToTja.ZeroRun | midi_to_tja.py:313-315 | the length of the leading run of tick-0 events |
| MidiToTja.LeadingTempoIsLast | midi_to_tja.py:313-317 | the seeded tempo is that of the last `set_tempo` among the leading tick-0 events, or the default when there is none |
| MidiToTja.LeadingTempoDefault | midi_to_tja.py:313-317 | with no `set_tempo` among the leading tick-0 events the seeded tempo is the state's own |
| MidiToTja.LeadingTempoLast | midi_to_tja.py:313-317 | a `set_tempo` among the leading tick-0 events with none after it in that run gives the seeded tempo |
| MidiToTja.SeedTempo | midi_to_tja.py:313-317 | the loop sets `LeadingTempo` and changes nothing else |
| MidiToTja.ConvertChart | midi_to_tja.py:330-353 | `Converted`: `BALLOON:` records only for a balloon symbol when the silent scan opened any, and then exactly its records; the writing scan's `scan_measure` calls are exactly `ScanFlushes` of the seeded state over the merged events and partition them; one `,` per call; on key-sorted inputs each measure has exactly its grid cells and the records are sound |
| MidiToTja.CountBalloons | midi_to_tja.py:335-345 | records are kept only for a balloon symbol when the silent scan from the seeded state opens any, and then they are exactly that scan's records (`ScanFrom`) |
| MidiToTja.ConvertedOf | midi_to_tja.py:330-353 | the two scans' results make up `Converted`: the merge is a permutation, so the calls partition all events of both lists, and on key-sorted inputs the merge is in tick order, which makes the balloon records sound |
| MidiToTja.SortedMergeSound | midi_to_tja.py:330-343 | merging key-sorted timing and lane events gives tick order, and the silent scan of it from the seeded state leaves sound balloon records |
| MidiToTja.LaneCharts | midi_to_tja.py:225-309 | the charts are those of the lane pass over the raw events (`MainCharts`): one per lane in creation order with its regenerated (long) or unchanged (hit) events, or one empty chart on `(0, 0)` when there is no lane; with symbol '0' that empty chart is the only one |
| MidiToTja.ConvertAll | midi_to_tja.py:325-353 | one chart text per lane, in order, each the conversion of that lane's events (`Converted`: the silent scan's balloon records, the `scan_measure` calls of `ScanFlushes` with one `,` each and, on sorted inputs, their grid cells and sound records) |
| MidiToTja.Convert | midi_to_tja.py:311-353 | the header tempo is the seeded one; the chart texts follow the lane order and each is `Converted` (its `scan_measure` calls are `ScanFlushes` of the seeded state) from the chart of its lane built by the lane pass over the raw events; with symbol '0' there is exactly one chart, on `(0, 0)`; on raw events in tick order every chart's events are in merge-key order, so with timing events in key order every chart's calls end before their measure ends, its body has exactly their grid cells and its balloon records are sound |
| MidiToTjaBalloon.BalloonSymbolIsBalloon | MIDI_to_TJA_balloon.py:138-147 | '7' is a known, long and balloon symbol, so the shared scan takes this script's branches |
| MidiToTjaBalloon.FirstNone | MIDI_to_TJA_balloon.py:207-211 | the slot found is a tombstone and every earlier slot is occupied |
| MidiToTjaBalloon.LastHolding | MIDI_to_TJA_balloon.py:220-222 | the slot found is the last one holding a note of that pitch |
| MidiToTjaBalloon.Seat | MIDI_to_TJA_balloon.py:203-213 | the new note takes the first tombstone of its channel or a new slot at the end; other channels and lanes are unchanged |
| MidiToTjaBalloon.NoteOnNext | MIDI_to_TJA_balloon.py:202-214 | `note_on` keeps the state well-formed and appends the note with end `tick + 1` |
| MidiToTjaBalloon.NoteOnSeats | MIDI_to_TJA_balloon.py:207-213 | the slot taken is the first tombstone, or a new last slot |
| MidiToTjaBalloon.NoteOnJoinsLane | MIDI_to_TJA_balloon.py:214 | the note is appended to lane `(channel, polypos)` and no other lane changes |
| MidiToTjaBalloon.NoteOffNext | MIDI_to_TJA_balloon.py:216-228 | `note_off` keeps the state well-formed |
| MidiToTjaBalloon.NoteOffFrees | MIDI_to_TJA_balloon.py:216-228 | the highest slot holding the pitch gets its end set to the tick and is popped when last or else tombstoned, and its note is in no slot afterwards; nothing changes when no slot holds the pitch |
| MidiToTjaBalloon.Dispatch | MIDI_to_TJA_balloon.py:230-234 | one raw event keeps the state well-formed |
| MidiToTjaBalloon.TicksGap | MIDI_to_TJA_balloon.py:237 | `ticks_per_beat // 48` |
| MidiToTjaBalloon.ClampedEnd | MIDI_to_TJA_balloon.py:241-242 | the end is the smaller of the note's end and the next note's start minus the gap |
| MidiToTjaBalloon.Lasting | MIDI_to_TJA_balloon.py:243 | kept indices ascend and each kept note's clamped end is after its start |
| MidiToTjaBalloon.LastingFilters | MIDI_to_TJA_balloon.py:241-243 | a note is kept exactly when its clamped end is after its start |
| MidiToTjaBalloon.RegeneratedPairs | MIDI_to_TJA_balloon.py:238-248 | the regenerated lane is the kept notes in order, each as a note-on and a later note-off at its clamped end, which leaves at least the gap before the next note of the lane |
| MidiToTjaBalloon.SlotAssigner.constructor | MIDI_to_TJA_balloon.py:199-200 | empty `note_events` and `on_notes` |
| MidiToTjaBalloon.SlotAssigner.SeatNote | MIDI_to_TJA_balloon.py:203-213 | the new state is `Seat` and the returned polypos is the first tombstone, or the old slot count |
| MidiToTjaBalloon.SlotAssigner.FindNone | MIDI_to_TJA_balloon.py:207-211 | the slot loop finds `FirstNone`: the first tombstone, or the slot count when there is none |
| MidiToTjaBalloon.SlotAssigner.NoteOn | MIDI_to_TJA_balloon.py:202-214 | the new state is `NoteOnNext` of the old one |
| MidiToTjaBalloon.SlotAssigner.FindHolding | MIDI_to_TJA_balloon.py:220-222 | the downward loop finds `LastHolding` |
| MidiToTjaBalloon.SlotAssigner.NoteOff | MIDI_to_TJA_balloon.py:216-228 | the new state is `NoteOffNext` of the old one; the freed note is recorded as closed |
| MidiToTjaBalloon.SlotAssigner.AssignLanes | MIDI_to_TJA_balloon.py:230-234 | the new state is `AssignAll` of the raw events |
| MidiToTjaBalloon.SlotAssigner.DispatchEvent | MIDI_to_TJA_balloon.py:230-234 | one raw event: the new state is `Dispatch` of the old one |
| MidiToTjaBalloon.SlotAssigner.RegenerateLane | MIDI_to_TJA_balloon.py:239-248 | the loop builds `Regenerated` |
| MidiToTjaBalloon.SlotAssigner.Charts | MIDI_to_TJA_balloon.py:238-248 | one chart per lane in creation order with its regenerated events |
| MidiToTjaBalloon.NoteOnInOrder | MIDI_to_TJA_balloon.py:202-214 | `note_on` at a tick no earlier than every note keeps the notes in tick order and every lane's ids ascending |
| MidiToTjaBalloon.NoteOffInOrder | MIDI_to_TJA_balloon.py:216-228 | `note_off` keeps the notes' ticks and the lanes, so the order facts stay |
| MidiToTjaBalloon.DispatchInOrder | MIDI_to_TJA_balloon.py:230-234 | one raw event at a tick no earlier than every note keeps the order facts |
| MidiToTjaBalloon.AssignAllInOrder | MIDI_to_TJA_balloon.py:230-234 | the whole pass over raw events in tick order yields notes in tick order with ascending lane ids |
| MidiToTjaBalloon.RegeneratedNonDecreasing | MIDI_to_TJA_balloon.py:236-248 | a clamped lane of notes in tick order is in tick order: each note's clamped end comes before the next note-on |
| MidiToTjaBalloon.BalloonChartsSorted | MIDI_to_TJA_balloon.py:196-248 | on raw note events in tick order, every chart of the tombstone pass is in merge-key order |
| MidiToTjaBalloon.LaneCharts | MIDI_to_TJA_balloon.py:183-248 | the charts are those of the tombstone pass over the raw events: one per lane in creation order, each with the clamped regeneration of its lane |
| MidiToTjaBalloon.Convert | MIDI_to_TJA_balloon.py:250-291 | the header tempo is the seeded one; one chart text per lane in order, each `Converted` (its `scan_measure` calls are `ScanFlushes` of the seeded state) from the clamped regeneration of its lane with the balloon symbol, with at least one measure; on raw events in tick order every chart's events are in merge-key order, so with timing events in key order every chart's calls end before their measure ends, its body has exactly their grid cells and its balloon records are sound |
| MidiTimingToTja.Tm.TicksPerMeasure | MIDI_Timing_to_TJA.py:29-30 | the measure length is at least 1 and otherwise the floor of `ticks_per_beat*4*upper/lower` |
| MidiTimingToTja.Tm.TickMeasureEnd | MIDI_Timing_to_TJA.py:32-33 | the measure end lies strictly after its start |
| MidiTimingToTja.LastChangeWins | MIDI_Timing_to_TJA.py:68-73 | after a run of events the signature and the tempo are those of its last `time_signature` and `set_tempo` events, or unchanged when it has none |
| MidiTimingToTja.StepTm | MIDI_Timing_to_TJA.py:120-123 | stepping ends with a measure that ends after the event's tick |
| MidiTimingToTja.AdvanceUsesNewSignature | MIDI_Timing_to_TJA.py:120-123 | a stepped measure ends at its start plus the length of the signature its events leave, not the signature it started with |
| MidiTimingToTja.MidMeasureSignatureOvershoots | MIDI_Timing_to_TJA.py:117-123 | a concrete input where a mid-measure 8/4 stretches the first measure past a later event |
| MidiTimingToTja.StepTmAdvances | MIDI_Timing_to_TJA.py:120-123 | stepping never moves the measure start backwards and does nothing when the measure already ends after the tick |
| MidiTimingToTja.PendingStaysBefore | MIDI_Timing_to_TJA.py:126-129 | on sorted events, a measure-initial signature change keeps the pending events before the measure end |
| MidiTimingToTja.ZerosUpTo | MIDI_Timing_to_TJA.py:64-66 | on a later cell it writes exactly the zeros up to it on their own line; otherwise nothing; no directive is written |
| MidiTimingToTja.Put | MIDI_Timing_to_TJA.py:66-81 | one printed token, counted, and placed after the cells so far when it is a directive |
| MidiTimingToTja.TmState.constructor | MIDI_Timing_to_TJA.py:11-17 | a fresh state: 4/4, 120 BPM, cursor at 0 |
| MidiTimingToTja.TmState.SyncMeasureBeginState | MIDI_Timing_to_TJA.py:19-27 | only an event at the measure start changes the state, by the signature or tempo it carries |
| MidiTimingToTja.TmState.AdvanceMeasure | MIDI_Timing_to_TJA.py:35-36 | the cursor moves forward by exactly one measure length and nothing else changes |
| MidiTimingToTja.TmState.SeedTempo | MIDI_Timing_to_TJA.py:101-105 | the tempo becomes that of the last `set_tempo` at tick 0; nothing else changes |
| MidiTimingToTja.TmState.ApplyMessage | MIDI_Timing_to_TJA.py:68-74 | the event's state change and the directive it prints, exactly for `time_signature` and `set_tempo` |
| MidiTimingToTja.TmState.PrintMessage | MIDI_Timing_to_TJA.py:68-74 | as `ApplyMessage`, with the directive appended to the output after the cells so far and no cell written |
| MidiTimingToTja.TmState.EmitEvents | MIDI_Timing_to_TJA.py:61-74 | the run's state change; the final cell index is that of the last event; on sorted events inside the measure it is inside the grid and equals the cells written, and each directive stands before the cell of its event, in event order |
| MidiTimingToTja.TmState.EmitNext | MIDI_Timing_to_TJA.py:63-74 | one event: the zeros up to its cell, then its directive; the run's state change, the cell accounting and the directive places of the loop advance by one event |
| MidiTimingToTja.PlacedStep | MIDI_Timing_to_TJA.py:63-74 | on sorted events inside the measure, the directive of the next event lands on that event's cell |
| MidiTimingToTja.TmState.EmitMeasure | MIDI_Timing_to_TJA.py:39-81 | one measure: exactly one `,` at the end; on sorted events inside the measure, the whole grid of `length / gcd` cells, or none when every event lies on the first cell, and each directive before the cell of its event, in event order |
| MidiTimingToTja.TmState.StepOver | MIDI_Timing_to_TJA.py:120-123 | the state and pending range are those of `StepTm`; one `,` per stepped measure; the first emitted range is the pending one and the rest are empty; cells are the emitted cells of those ranges |
| MidiTimingToTja.StepTmFlushesStep | MIDI_Timing_to_TJA.py:120-123 | one more stepped measure extends the calls made so far by that measure's call (pending range, measure start, length) and leaves the rest of `StepTmFlushes` from the advanced state |
| MidiTimingToTja.TmState.EmitAndAdvance | MIDI_Timing_to_TJA.py:121-123 | one measure written and the cursor moved by the length of the signature the range leaves |
| MidiTimingToTja.TmState.TimingStep | MIDI_Timing_to_TJA.py:117-129 | one iteration of `main`'s loop preserves the final state `TmFrom`; its `emit_measure` calls are exactly the `StepTmFlushes` of the old state (range, measure start and length of each) and the head of the remaining `TmFlushes`; a measure-initial signature applies at once; the cell and measure accounting is kept |
| MidiTimingToTja.TmState.StepWithProgress | MIDI_Timing_to_TJA.py:117-129 | one iteration of `main`'s loop keeps the loop invariant `Progress`; it exists so that the loop's own proof stays small |
| MidiTimingToTja.TmState.SyncMeasureStart | MIDI_Timing_to_TJA.py:126-129 | a `time_signature` at the measure start is applied at once |
| MidiTimingToTja.TmState.MeasuresBefore | MIDI_Timing_to_TJA.py:116-129 | the loop of `main`: its `emit_measure` calls followed by the last one are exactly `TmFlushes` of the initial state; contiguous ranges, one `,` each; on sorted events they end before their measure ends, and with signatures only at measure starts every range lies inside its measure |
| MidiTimingToTja.TmState.EmitLastMeasure | MIDI_Timing_to_TJA.py:132 | the last measure gets the rest of the events, one `,`, and its emitted cells |
| MidiTimingToTja.TmState.EmitChart | MIDI_Timing_to_TJA.py:116-132 | the final state is `TmFrom`; the `emit_measure` calls are exactly `TmFlushes` of the initial state (range, measure start and length of each) and partition the events; one `,` per call; on sorted events with signatures only at measure starts each call gets only its own measure's events and the chart has exactly their cells |
| MidiTimingToTja.LastMeasureAppend | MIDI_Timing_to_TJA.py:116-132 | the measures before the last start and the last measure together partition the events, with the counts and per-measure facts of both parts |
| MidiTimingToTja.Convert | MIDI_Timing_to_TJA.py:97-132 | the `BPM:` tempo is the seeded one; the chart's `emit_measure` calls are exactly `TmFlushes` of the seeded fresh state, and the body is as `EmitChart` states |

## Left out

- Reading the MIDI file, argument parsing, file output, the header lines, the `// Channel` comments, `#START`/`#END` and the UTF-8 BOM are left out. The model starts from absolute-tick event lists and ends at token sequences. The note symbol and `--long-gap` become parameters. argparse's `choices=KNOWN_NOTES` is a string, so it lets any substring of it through ("12", say); the symbol stays a known note because midi_to_tja.py:219-220 keep the default '7' unless the argument is one known note, so the symbol is any character here and the shared helpers decide what it does.
- The tick sorts of midi_to_tja.py:236-237, MIDI_to_TJA_balloon.py:195-196 and MIDI_Timing_to_TJA.py:97 are left out. The sorted lists are inputs, and properties that need sorting carry it as a hypothesis (`NonDecreasing`, `KeySorted`).
- `tempo2bpm`, `bpm2tempo` and the float `bpm` are not modelled. Tempo is kept as microseconds per beat, the integer it comes from. Directives carry numbers instead of their decimal text.
- `note_to_hz` and the rounding of the balloon count are not modelled, because they are floating point. The model keeps the balloon records the count is computed from, and proves their durations non-negative.
- `Fraction` parsing of `--long-gap` is not modelled. The gap is the fraction `gapNum/gapDen` with `int` truncation.
- `i_measure_begin` of both state classes is not modelled, because it is never read.
- The `usec_abs`/`usec_end_abs` writes of the scan into note `ChartEvent`s are kept only through the balloon records, because nothing else reads them.
- midi_reclock.py is not part of this model.
- MidiTimingToTja.TmState.EmitChart: cell counts are stated only under `SignaturesAtMeasureStarts`. A mid-measure signature change can make a measure start after its events, and the count is then not the grid count.
- MidiTimingToTja.Convert: same restriction as `EmitChart`.
- ChartScan.ChartState.ScanChart: the whole chart's cells are stated as counts. Cell symbols and directive places are stated per measure, by `ScanMeasure`, not carried through the chart loop.
- MidiToTja.ConvertChart: cell counts and balloon soundness are stated for key-sorted inputs only.
