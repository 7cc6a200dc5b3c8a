/** The lane assignment of midi_to_tja.py: the `note_on`/`note_off` closures
    of `main` (lines 240-293) that spread the notes of each channel over
    polyphonic lanes, and the regeneration of each lane's events
    (lines 295-309).  A `ChartEvent` that the closures share by reference is
    an index into the arena `notes`; the slot lists and the lanes hold
    indices, so a write to a note through a slot is seen by its lane. */
module MidiToTja {
  import opened Events
  import opened Merge
  import opened ChartScan

  function Max(a: int, b: int): int { if a >= b then a else b }
  function Min(a: int, b: int): int { if a <= b then a else b }

  /** `usec_end_abs` markers of the lane pass. */
  const Unended: int := -1
  const Ended: int := -2

  /** A note-on `ChartEvent` as the lane pass sees it. */
  datatype Note = Note(channel: nat, pitch: nat, velocity: nat, tick: nat, tickEnd: int, usecEnd: int)

  /** A key of `note_events`: `(channel, polypos)`. */
  datatype Lane = Lane(channel: nat, polypos: nat)

  /** `int(4 * ticks_per_beat * long_gap)` for long notes, 0 otherwise;
      `long_gap` is the fraction `gapNum / gapDen` and `int` truncates
      toward zero. */
  function TicksGap(ticksPerBeat: Pos, gapNum: int, gapDen: Pos, long: bool): (r: int)
    ensures !long ==> r == 0
    ensures long && gapNum >= 0 ==> 0 <= r && r * gapDen <= 4 * ticksPerBeat * gapNum < (r + 1) * gapDen
    ensures long && gapNum < 0 ==> r <= 0 && -r * gapDen <= -4 * ticksPerBeat * gapNum < (-r + 1) * gapDen
  {
    if !long then 0
    else
      var x := 4 * ticksPerBeat * gapNum;
      ProductSign(4 * ticksPerBeat, gapNum);
      FloorBounds(if x >= 0 then x else -x, gapDen);
      if x >= 0 then x / gapDen else -((-x) / gapDen)
  }

  lemma ProductSign(a: Pos, b: int)
    ensures b >= 0 ==> a * b >= 0
    ensures b < 0 ==> a * b < 0
  {
  }

  lemma FloorBounds(y: nat, d: Pos)
    ensures 0 <= y / d && (y / d) * d <= y < (y / d + 1) * d
  {
  }

  predicate IdsBelow(ids: seq<nat>, n: nat)
  {
    forall k | 0 <= k < |ids| :: ids[k] < n
  }

  /** The view `e_` that `note_on` takes of a slot's note.  A note of the
      new note's pitch is cut: ended at `tick` if it still sounds, then its
      end clamped to `max(start + gap, min(end, tick - gap))`.  A note of
      another pitch is seen as it is. */
  function CutView(n: Note, pitch: nat, tick: int, gap: int): (v: Note)
    ensures v == n.(tickEnd := v.tickEnd, usecEnd := v.usecEnd)
    ensures n.pitch != pitch ==> v == n
    ensures n.pitch == pitch ==> v.usecEnd == (if n.usecEnd == Unended then Ended else n.usecEnd)
    ensures n.pitch == pitch ==> v.tickEnd >= n.tick + gap && (v.tickEnd == n.tick + gap || v.tickEnd <= tick - gap)
  {
    if n.pitch != pitch then n
    else
      var ended := if n.usecEnd == Unended then n.(tickEnd := tick, usecEnd := Ended) else n;
      ended.(tickEnd := Max(ended.tick + gap, Min(ended.tickEnd, tick - gap)))
  }

  /** A slot whose (viewed) note has ended before `tick` can take the new
      note. */
  predicate Free(v: Note, tick: int)
  {
    v.usecEnd != Unended && tick > v.tickEnd
  }

  /** The index of the first free slot from `from` on, or the number of
      slots when there is none: the `for ... else` of `note_on`. */
  function FirstFree(notes: seq<Note>, slots: seq<nat>, pitch: nat, tick: int, gap: int, from: nat): (r: nat)
    requires from <= |slots| && IdsBelow(slots, |notes|)
    ensures from <= r <= |slots|
    ensures r < |slots| ==> Free(CutView(notes[slots[r]], pitch, tick, gap), tick)
    ensures forall k | from <= k < r :: !Free(CutView(notes[slots[k]], pitch, tick, gap), tick)
    decreases |slots| - from
  {
    if from == |slots| then from
    else if Free(CutView(notes[slots[from]], pitch, tick, gap), tick) then from
    else FirstFree(notes, slots, pitch, tick, gap, from + 1)
  }

  /** A note that `note_off` may end: still sounding, of the given pitch. */
  predicate Sounding(n: Note, pitch: nat)
  {
    n.usecEnd == Unended && n.pitch == pitch
  }

  /** The highest slot index below `hi` holding a sounding note of `pitch`,
      or -1: the backward scan of `note_off`. */
  function LastSounding(notes: seq<Note>, slots: seq<nat>, pitch: nat, hi: nat): (r: int)
    requires hi <= |slots| && IdsBelow(slots, |notes|)
    ensures -1 <= r < hi
    ensures r >= 0 ==> Sounding(notes[slots[r]], pitch)
    ensures forall k | r < k < hi :: !Sounding(notes[slots[k]], pitch)
  {
    if hi == 0 then -1
    else if Sounding(notes[slots[hi - 1]], pitch) then hi - 1
    else LastSounding(notes, slots, pitch, hi - 1)
  }

  // ---------------------------------------------------------------------
  // The state of the lane pass, as a value

  /** The notes made so far, `on_notes` (channel to slot list), and
      `note_events` (lane to notes) with the order its keys were created
      in. */
  datatype Polyphony = Polyphony(
    notes: seq<Note>,
    onNotes: map<nat, seq<nat>>,
    lanes: map<Lane, seq<nat>>,
    laneOrder: seq<Lane>)

  function SlotsOf(s: Polyphony, channel: nat): seq<nat>
  {
    if channel in s.onNotes then s.onNotes[channel] else []
  }

  /** What the lane pass keeps true: slots and lanes name existing notes;
      no note ends before its start plus the gap; in hit mode (`!long`)
      every slot list is empty; the key order lists each lane once. */
  ghost predicate WellFormed(s: Polyphony, gap: int, long: bool)
  {
    && (forall ch | ch in s.onNotes :: IdsBelow(s.onNotes[ch], |s.notes|))
    && (forall l | l in s.lanes :: IdsBelow(s.lanes[l], |s.notes|))
    && (forall k | 0 <= k < |s.notes| :: s.notes[k].tickEnd >= s.notes[k].tick + gap)
    && (!long ==> forall ch | ch in s.onNotes :: s.onNotes[ch] == [])
    && (forall l :: l in s.lanes <==> l in s.laneOrder)
    && (forall i, j | 0 <= i < j < |s.laneOrder| :: s.laneOrder[i] != s.laneOrder[j])
  }

  /** Every lane of the key order is a lane of existing notes. */
  lemma OrderedLane(s: Polyphony, gap: int, long: bool, k: nat)
    requires WellFormed(s, gap, long) && k < |s.laneOrder|
    ensures s.laneOrder[k] in s.lanes && IdsBelow(s.lanes[s.laneOrder[k]], |s.notes|)
  {
  }

  function EmptyPolyphony(): Polyphony
  {
    Polyphony([], map[], map[], [])
  }

  /** `note_events.setdefault(lane, []).append(id)`. */
  function AddToLane(s: Polyphony, lane: Lane, id: nat): Polyphony
  {
    if lane in s.lanes then s.(lanes := s.lanes[lane := s.lanes[lane] + [id]])
    else s.(lanes := s.lanes[lane := [id]], laneOrder := s.laneOrder + [lane])
  }

  /** The slot step of `note_on`: the new note is made, then it takes the
      first free slot of its channel (the note there is cut), or a new slot
      in long mode when none is free. */
  function Seat(s: Polyphony, gap: int, long: bool, channel: nat, pitch: nat, velocity: nat, tick: nat): (r: Polyphony)
    requires WellFormed(s, gap, long)
    ensures WellFormed(r, gap, long)
    ensures |r.notes| == |s.notes| + 1 && r.lanes == s.lanes && r.laneOrder == s.laneOrder
    ensures r.notes[|s.notes|] == Note(channel, pitch, velocity, tick, tick + gap, Unended)
  {
    var slots := SlotsOf(s, channel);
    var id := |s.notes|;
    var notes := s.notes + [Note(channel, pitch, velocity, tick, tick + gap, Unended)];
    var p := FirstFree(s.notes, slots, pitch, tick, gap, 0);
    if p < |slots| then
      var r := s.(notes := notes[slots[p] := CutView(s.notes[slots[p]], pitch, tick, gap)],
                  onNotes := s.onNotes[channel := slots[p := id]]);
      SeatWellFormed(s, r, gap, long, channel);
      r
    else
      var r := s.(notes := notes, onNotes := s.onNotes[channel := if long then slots + [id] else slots]);
      SeatWellFormed(s, r, gap, long, channel);
      r
  }

  /** Changing one channel's slots to slots of the grown arena, and nothing
      about the notes but their ends, keeps the lane pass well formed. */
  lemma SeatWellFormed(s: Polyphony, r: Polyphony, gap: int, long: bool, channel: nat)
    requires WellFormed(s, gap, long)
    requires |r.notes| == |s.notes| + 1 && r.lanes == s.lanes && r.laneOrder == s.laneOrder
    requires forall k | 0 <= k < |r.notes| :: r.notes[k].tickEnd >= r.notes[k].tick + gap
    requires channel in r.onNotes && r.onNotes == s.onNotes[channel := r.onNotes[channel]]
    requires IdsBelow(r.onNotes[channel], |r.notes|) && (!long ==> r.onNotes[channel] == [])
    ensures WellFormed(r, gap, long)
  {
  }

  /** `note_on(msg, tick)` (midi_to_tja.py:243-271): `Seat`, then the new
      note joins the lane of its slot, in long mode or when it took slot 0. */
  function NoteOnNext(s: Polyphony, gap: int, long: bool, channel: nat, pitch: nat, velocity: nat, tick: nat): (r: Polyphony)
    requires WellFormed(s, gap, long)
    ensures WellFormed(r, gap, long)
    ensures |r.notes| == |s.notes| + 1 && r.notes[|s.notes|] == Note(channel, pitch, velocity, tick, tick + gap, Unended)
  {
    var s1 := Seat(s, gap, long, channel, pitch, velocity, tick);
    var p := FirstFree(s.notes, SlotsOf(s, channel), pitch, tick, gap, 0);
    if long || p == 0 then
      AddToLaneWellFormed(s1, gap, long, Lane(channel, p), |s.notes|);
      AddToLane(s1, Lane(channel, p), |s.notes|)
    else s1
  }

  lemma AddToLaneWellFormed(s: Polyphony, gap: int, long: bool, lane: Lane, id: nat)
    requires WellFormed(s, gap, long) && id < |s.notes|
    ensures WellFormed(AddToLane(s, lane, id), gap, long)
  {
  }

  /** `note_off(msg, tick)` (midi_to_tja.py:273-282). */
  function NoteOffNext(s: Polyphony, gap: int, channel: nat, pitch: nat, tick: int): (r: Polyphony)
    requires forall ch | ch in s.onNotes :: IdsBelow(s.onNotes[ch], |s.notes|)
  {
    if channel !in s.onNotes then s
    else
      var slots := s.onNotes[channel];
      var k := LastSounding(s.notes, slots, pitch, |slots|);
      if k < 0 then s
      else
        var n := s.notes[slots[k]];
        s.(notes := s.notes[slots[k] := n.(tickEnd := Max(n.tick + gap, tick), usecEnd := Ended)])
  }

  /** `note_off` keeps the lane pass well formed. */
  lemma NoteOffWellFormed(s: Polyphony, gap: int, long: bool, channel: nat, pitch: nat, tick: int)
    requires WellFormed(s, gap, long)
    ensures WellFormed(NoteOffNext(s, gap, channel, pitch, tick), gap, long)
  {
    var r := NoteOffNext(s, gap, channel, pitch, tick);
    assert r.onNotes == s.onNotes && r.lanes == s.lanes && |r.notes| == |s.notes|;
  }

  /** `note_off` ends exactly one note, the sounding note of its pitch in
      the highest slot of its channel, at `max(start + gap, tick)`; if there
      is none, nothing changes.  Slots and lanes never change. */
  lemma {:induction false} NoteOffEndsHighest(s: Polyphony, gap: int, long: bool, channel: nat, pitch: nat, tick: int)
    requires WellFormed(s, gap, long)
    ensures var r := NoteOffNext(s, gap, channel, pitch, tick);
      var slots := SlotsOf(s, channel);
      && r.onNotes == s.onNotes && r.lanes == s.lanes && r.laneOrder == s.laneOrder
      && |r.notes| == |s.notes|
      && ((forall k | 0 <= k < |slots| :: !Sounding(s.notes[slots[k]], pitch)) ==> r == s)
      && forall k | 0 <= k < |slots| && Sounding(s.notes[slots[k]], pitch)
                    && (forall j | k < j < |slots| :: !Sounding(s.notes[slots[j]], pitch)) ::
           && r.notes[slots[k]] == s.notes[slots[k]].(tickEnd := Max(s.notes[slots[k]].tick + gap, tick), usecEnd := Ended)
           && forall m | 0 <= m < |s.notes| && m != slots[k] :: r.notes[m] == s.notes[m]
  {
    var slots := SlotsOf(s, channel);
    if channel in s.onNotes {
      var k := LastSounding(s.notes, slots, pitch, |slots|);
      forall k' | 0 <= k' < |slots| && Sounding(s.notes[slots[k']], pitch)
                  && (forall j | k' < j < |slots| :: !Sounding(s.notes[slots[j]], pitch))
        ensures k' == k
      {
      }
    }
  }

  /** `note_on` puts the new note into the first free slot of its channel
      (appending a slot in long mode when none is free), cuts the note it
      displaces, and adds the new note to the lane of that slot index; in
      hit mode the slot lists stay empty and the note goes to lane
      `(channel, 0)`.  No other note, slot list or lane changes: the cut
      views of the same-pitch slots passed over are dropped, and the key
      order gains the new lane only when it is created. */
  lemma NoteOnPlaces(s: Polyphony, gap: int, long: bool, channel: nat, pitch: nat, velocity: nat, tick: nat)
    requires WellFormed(s, gap, long)
    ensures var r := NoteOnNext(s, gap, long, channel, pitch, velocity, tick);
      var slots := SlotsOf(s, channel);
      var p := FirstFree(s.notes, slots, pitch, tick, gap, 0);
      var id := |s.notes|;
      && (p < |slots| ==>
            SlotsOf(r, channel) == slots[p := id]
            && r.notes[slots[p]] == CutView(s.notes[slots[p]], pitch, tick, gap))
      && (p == |slots| ==> SlotsOf(r, channel) == if long then slots + [id] else slots)
      && (long || p == 0 ==>
            Lane(channel, p) in r.lanes
            && r.lanes[Lane(channel, p)] == (if Lane(channel, p) in s.lanes then s.lanes[Lane(channel, p)] else []) + [id])
      && (!long ==> p == 0 && SlotsOf(r, channel) == [])
      && (forall ch | ch != channel :: SlotsOf(r, ch) == SlotsOf(s, ch))
      && |r.notes| == id + 1
      && r.notes[id] == Note(channel, pitch, velocity, tick, tick + gap, Unended)
      && (forall m | 0 <= m < id && (p == |slots| || m != slots[p]) :: r.notes[m] == s.notes[m])
      && (forall l | l in s.lanes && (!(long || p == 0) || l != Lane(channel, p)) ::
            l in r.lanes && r.lanes[l] == s.lanes[l])
      && (forall l | l in r.lanes :: l in s.lanes || ((long || p == 0) && l == Lane(channel, p)))
      && r.laneOrder == (if (long || p == 0) && Lane(channel, p) !in s.lanes then s.laneOrder + [Lane(channel, p)]
                         else s.laneOrder)
  {
    NoteOnSeats(s, gap, long, channel, pitch, velocity, tick);
    NoteOnLanes(s, gap, long, channel, pitch, velocity, tick);
  }

  /** The slot step of `note_on`: which slot the new note takes, and that
      only the note it cuts changes. */
  lemma NoteOnSeats(s: Polyphony, gap: int, long: bool, channel: nat, pitch: nat, velocity: nat, tick: nat)
    requires WellFormed(s, gap, long)
    ensures var r := Seat(s, gap, long, channel, pitch, velocity, tick);
      var slots := SlotsOf(s, channel);
      var p := FirstFree(s.notes, slots, pitch, tick, gap, 0);
      var id := |s.notes|;
      && (p < |slots| ==>
            SlotsOf(r, channel) == slots[p := id]
            && r.notes[slots[p]] == CutView(s.notes[slots[p]], pitch, tick, gap))
      && (p == |slots| ==> SlotsOf(r, channel) == if long then slots + [id] else slots)
      && (!long ==> p == 0 && SlotsOf(r, channel) == [])
      && (forall ch | ch != channel :: SlotsOf(r, ch) == SlotsOf(s, ch))
      && (forall m | 0 <= m < id && (p == |slots| || m != slots[p]) :: r.notes[m] == s.notes[m])
  {
  }

  /** The lane step of `note_on`: the new note joins the lane of its slot
      in long mode or on slot 0, and no other lane changes. */
  lemma NoteOnLanes(s: Polyphony, gap: int, long: bool, channel: nat, pitch: nat, velocity: nat, tick: nat)
    requires WellFormed(s, gap, long)
    ensures var r := NoteOnNext(s, gap, long, channel, pitch, velocity, tick);
      var s1 := Seat(s, gap, long, channel, pitch, velocity, tick);
      var p := FirstFree(s.notes, SlotsOf(s, channel), pitch, tick, gap, 0);
      var id := |s.notes|;
      && r.notes == s1.notes && r.onNotes == s1.onNotes
      && (long || p == 0 ==>
            Lane(channel, p) in r.lanes
            && r.lanes[Lane(channel, p)] == (if Lane(channel, p) in s.lanes then s.lanes[Lane(channel, p)] else []) + [id])
      && (forall l | l in s.lanes && (!(long || p == 0) || l != Lane(channel, p)) ::
            l in r.lanes && r.lanes[l] == s.lanes[l])
      && (forall l | l in r.lanes :: l in s.lanes || ((long || p == 0) && l == Lane(channel, p)))
      && r.laneOrder == (if (long || p == 0) && Lane(channel, p) !in s.lanes then s.laneOrder + [Lane(channel, p)]
                         else s.laneOrder)
  {
  }

  /** One raw note event (midi_to_tja.py:284-293): a sounding note-on is a
      `note_on`, followed at once by a `note_off` in hit mode; in long mode a
      note-off or a silent note-on is a `note_off`. */
  function Dispatch(s: Polyphony, gap: int, long: bool, e: TimedEvent): (r: Polyphony)
    requires WellFormed(s, gap, long)
    ensures WellFormed(r, gap, long)
  {
    match e.msg
    case NoteOn(channel, pitch, velocity) =>
      if velocity > 0 then
        var s1 := NoteOnNext(s, gap, long, channel, pitch, velocity, e.tick);
        if !long then
          NoteOffWellFormed(s1, gap, long, channel, pitch, e.tick);
          NoteOffNext(s1, gap, channel, pitch, e.tick)
        else s1
      else if long then
        NoteOffWellFormed(s, gap, long, channel, pitch, e.tick);
        NoteOffNext(s, gap, channel, pitch, e.tick)
      else s
    case NoteOff(channel, pitch) =>
      if long then
        NoteOffWellFormed(s, gap, long, channel, pitch, e.tick);
        NoteOffNext(s, gap, channel, pitch, e.tick)
      else s
    case _ => s
  }

  /** The loop over `raw_note_events`. */
  function AssignAll(s: Polyphony, gap: int, long: bool, raw: seq<TimedEvent>): (r: Polyphony)
    requires WellFormed(s, gap, long)
    ensures WellFormed(r, gap, long)
  {
    if raw == [] then s else Dispatch(AssignAll(s, gap, long, raw[..|raw| - 1]), gap, long, raw[|raw| - 1])
  }

  /** In hit mode `note_off` finds no slot, so nothing is ever ended. */
  lemma HitModeNoteOffIdle(s: Polyphony, gap: int, channel: nat, pitch: nat, tick: int)
    requires WellFormed(s, gap, false)
    ensures NoteOffNext(s, gap, channel, pitch, tick) == s
  {
  }

  /** In hit mode every note of a channel lands in lane `(channel, 0)`, in
      the order of the raw events, and no slot is ever used. */
  lemma {:induction false} HitModeSingleLane(s: Polyphony, gap: int, raw: seq<TimedEvent>)
    requires WellFormed(s, gap, false)
    ensures var r := AssignAll(s, gap, false, raw);
      && (forall l | l in r.lanes && l !in s.lanes :: l.polypos == 0)
      && (forall l | l in s.lanes :: l in r.lanes && s.lanes[l] <= r.lanes[l])
      && (forall ch | ch in r.onNotes :: r.onNotes[ch] == [])
  {
    if raw != [] {
      var init := raw[..|raw| - 1];
      HitModeSingleLane(s, gap, init);
      var s1 := AssignAll(s, gap, false, init);
      var e := raw[|raw| - 1];
      match e.msg {
        case NoteOn(channel, pitch, velocity) =>
          if velocity > 0 {
            var s2 := NoteOnNext(s1, gap, false, channel, pitch, velocity, e.tick);
            NoteOnSeats(s1, gap, false, channel, pitch, velocity, e.tick);
            NoteOnLanes(s1, gap, false, channel, pitch, velocity, e.tick);
            HitModeNoteOffIdle(s2, gap, channel, pitch, e.tick);
            assert AssignAll(s, gap, false, raw) == s2;
          } else {
            assert AssignAll(s, gap, false, raw) == s1;
          }
        case NoteOff(_, _) =>
          assert AssignAll(s, gap, false, raw) == s1;
        case TimeSignature(_, _) =>
          assert AssignAll(s, gap, false, raw) == s1;
        case SetTempo(_) =>
          assert AssignAll(s, gap, false, raw) == s1;
      }
    }
  }

  // ---------------------------------------------------------------------
  // Lane regeneration

  function OnEvent(n: Note): TimedEvent
  {
    TimedEvent(n.tick, NoteOn(n.channel, n.pitch, n.velocity))
  }

  /** The synthesised `note_off` at the note's end. */
  function OffEvent(n: Note): TimedEvent
    requires n.tickEnd >= 0
  {
    TimedEvent(n.tickEnd, NoteOff(n.channel, n.pitch))
  }

  /** The events one note of a lane becomes: none if it does not last. */
  function NoteEvents(n: Note): seq<TimedEvent>
  {
    if n.tickEnd > n.tick then [OnEvent(n), OffEvent(n)] else []
  }

  /** The positions in a lane whose note lasts (`tick_end_abs > tick_abs`),
      in order. */
  function Lasting(notes: seq<Note>, lane: seq<nat>): (kept: seq<nat>)
    requires IdsBelow(lane, |notes|)
    ensures forall k | 0 <= k < |kept| :: kept[k] < |lane| && notes[lane[kept[k]]].tickEnd > notes[lane[kept[k]]].tick
    ensures forall k, k' | 0 <= k < k' < |kept| :: kept[k] < kept[k']
  {
    if lane == [] then []
    else
      var init := Lasting(notes, lane[..|lane| - 1]);
      var n := notes[lane[|lane| - 1]];
      if n.tickEnd > n.tick then init + [|lane| - 1] else init
  }

  /** A lane's events after regeneration (midi_to_tja.py:296-305). */
  function Regenerated(notes: seq<Note>, lane: seq<nat>): seq<TimedEvent>
    requires IdsBelow(lane, |notes|)
  {
    if lane == [] then []
    else Regenerated(notes, lane[..|lane| - 1]) + NoteEvents(notes[lane[|lane| - 1]])
  }

  /** Regeneration keeps exactly the lasting notes, in lane order, each
      followed at once by a note-off of its channel and pitch at its end,
      which is after its start. */
  lemma {:induction false} RegeneratedPairs(notes: seq<Note>, lane: seq<nat>)
    requires IdsBelow(lane, |notes|)
    ensures var r, kept := Regenerated(notes, lane), Lasting(notes, lane);
      && |r| == 2 * |kept|
      && forall k | 0 <= k < |kept| ::
           && r[2 * k] == OnEvent(notes[lane[kept[k]]])
           && r[2 * k + 1] == OffEvent(notes[lane[kept[k]]])
           && r[2 * k].tick < r[2 * k + 1].tick
  {
    if lane != [] {
      var init := lane[..|lane| - 1];
      RegeneratedPairs(notes, init);
      var r0, kept0 := Regenerated(notes, init), Lasting(notes, init);
      var r, kept := Regenerated(notes, lane), Lasting(notes, lane);
      forall k | 0 <= k < |kept0|
        ensures r[2 * k] == r0[2 * k] && r[2 * k + 1] == r0[2 * k + 1] && kept[k] == kept0[k]
        ensures init[kept0[k]] == lane[kept0[k]]
      {
      }
    }
  }

  /** Each note of a lane either lasts or is dropped: a position is kept
      exactly when its note has `tick_end_abs > tick_abs`, so with the
      ascending positions of `Lasting` the kept notes are the lane's
      lasting notes in lane order. */
  lemma {:induction false} LastingFilters(notes: seq<Note>, lane: seq<nat>)
    requires IdsBelow(lane, |notes|)
    ensures forall i | 0 <= i < |lane| :: i in Lasting(notes, lane) <==> notes[lane[i]].tickEnd > notes[lane[i]].tick
  {
    if lane != [] {
      var init := lane[..|lane| - 1];
      LastingFilters(notes, init);
      var kept0 := Lasting(notes, init);
      forall i | 0 <= i < |lane|
        ensures i in Lasting(notes, lane) <==> notes[lane[i]].tickEnd > notes[lane[i]].tick
      {
        if i == |lane| - 1 {
          assert i !in kept0;
        } else {
          assert init[i] == lane[i];
        }
      }
    }
  }

  /** A lane's events in hit mode: its note-ons as they are. */
  function HitEvents(notes: seq<Note>, lane: seq<nat>): (r: seq<TimedEvent>)
    requires IdsBelow(lane, |notes|)
    ensures |r| == |lane| && forall k | 0 <= k < |lane| :: r[k] == OnEvent(notes[lane[k]])
  {
    seq(|lane|, k requires 0 <= k < |lane| => OnEvent(notes[lane[k]]))
  }

  // ---------------------------------------------------------------------
  // Lane order

  function LastOf(lane: seq<nat>): nat
    requires lane != []
  {
    lane[|lane| - 1]
  }

  /** No note starts after `t`, and notes start in the order they are
      made. */
  ghost predicate NotesInOrder(notes: seq<Note>, t: nat)
  {
    && (forall k | 0 <= k < |notes| :: notes[k].tick <= t)
    && (forall a, b | 0 <= a < b < |notes| :: notes[a].tick <= notes[b].tick)
  }

  /** Each lane lists its notes in the order they were made, and no note
      is in two lanes. */
  ghost predicate LanesApart(lanes: map<Lane, seq<nat>>)
  {
    && (forall l, i, j | l in lanes && 0 <= i < j < |lanes[l]| :: lanes[l][i] < lanes[l][j])
    && (forall l1, l2, i, j | l1 in lanes && l2 in lanes && l1 != l2 && 0 <= i < |lanes[l1]| && 0 <= j < |lanes[l2]| ::
          lanes[l1][i] != lanes[l2][j])
  }

  /** Slot `k` of a channel holds the last note of lane `(channel, k)`, and
      every lane has its slot. */
  ghost predicate SlotsEndLanes(s: Polyphony)
  {
    && (forall ch, k | 0 <= k < |SlotsOf(s, ch)| ::
          Lane(ch, k) in s.lanes && s.lanes[Lane(ch, k)] != [] && LastOf(s.lanes[Lane(ch, k)]) == SlotsOf(s, ch)[k])
    && (forall l | l in s.lanes :: l.polypos < |SlotsOf(s, l.channel)|)
  }

  /** Each note of a lane ends before every later note of it starts. */
  ghost predicate LaneSpaced(notes: seq<Note>, ids: seq<nat>)
  {
    forall i, j | 0 <= i < j < |ids| && ids[i] < |notes| && ids[j] < |notes| :: notes[ids[i]].tickEnd < notes[ids[j]].tick
  }

  ghost predicate LanesSpaced(notes: seq<Note>, lanes: map<Lane, seq<nat>>)
  {
    forall l | l in lanes :: LaneSpaced(notes, lanes[l])
  }

  /** What the lane pass keeps of the order of its notes once the raw
      events up to tick `t` are dispatched.  In long mode a slot is taken
      only past the end of the note it held, and that note, no longer in a
      slot, never changes again, so the notes of a lane follow each other
      without overlap. */
  ghost predicate LanesInOrder(s: Polyphony, gap: int, long: bool, t: nat)
  {
    && WellFormed(s, gap, long)
    && NotesInOrder(s.notes, t)
    && LanesApart(s.lanes)
    && (long ==> SlotsEndLanes(s) && LanesSpaced(s.notes, s.lanes))
  }

  /** Notes whose starts do not move stay in order, up to a later tick,
      with one more note at that tick. */
  lemma NotesInOrderGrow(a: seq<Note>, b: seq<Note>, t: nat, t': nat)
    requires NotesInOrder(a, t) && t <= t'
    requires |b| == |a| || (|b| == |a| + 1 && b[|a|].tick == t')
    requires forall x | 0 <= x < |a| :: b[x].tick == a[x].tick
    ensures NotesInOrder(b, t')
  {
  }

  /** The last note of a lane is in no other place of any lane. */
  lemma OnlyLast(lanes: map<Lane, seq<nat>>, l0: Lane, m: nat)
    requires LanesApart(lanes) && l0 in lanes && lanes[l0] != [] && LastOf(lanes[l0]) == m
    ensures forall l, i | l in lanes && 0 <= i < |lanes[l]| - 1 :: lanes[l][i] != m
  {
    forall l, i | l in lanes && 0 <= i < |lanes[l]| - 1
      ensures lanes[l][i] != m
    {
      if l == l0 {
        assert lanes[l][i] < lanes[l][|lanes[l]| - 1];
      }
    }
  }

  /** A lane stays spaced when no note of it changes but its last, whose
      start stays. */
  lemma LaneSpacedKept(notes: seq<Note>, notes': seq<Note>, ids: seq<nat>, m: nat)
    requires LaneSpaced(notes, ids) && IdsBelow(ids, |notes|) && |notes'| >= |notes|
    requires forall x | 0 <= x < |notes| :: notes'[x].tick == notes[x].tick && (x != m ==> notes'[x] == notes[x])
    requires forall i | 0 <= i < |ids| - 1 :: ids[i] != m
    ensures LaneSpaced(notes', ids)
  {
  }

  /** A note starting after every note of a spaced lane ends extends it. */
  lemma LaneSpacedSnoc(notes: seq<Note>, ids: seq<nat>, id: nat)
    requires LaneSpaced(notes, ids) && IdsBelow(ids, |notes|) && id < |notes|
    requires forall i | 0 <= i < |ids| :: notes[ids[i]].tickEnd < notes[id].tick
    ensures LaneSpaced(notes, ids + [id])
  {
  }

  /** `note_off` keeps the lanes in order: the note it ends is the last of
      its lane, and only its end changes. */
  lemma NoteOffInOrder(s: Polyphony, gap: int, long: bool, channel: nat, pitch: nat, tick: int, t: nat, t': nat)
    requires LanesInOrder(s, gap, long, t) && t <= t'
    ensures LanesInOrder(NoteOffNext(s, gap, channel, pitch, tick), gap, long, t')
  {
    var r := NoteOffNext(s, gap, channel, pitch, tick);
    NoteOffWellFormed(s, gap, long, channel, pitch, tick);
    if channel in s.onNotes {
      var slots := s.onNotes[channel];
      var k := LastSounding(s.notes, slots, pitch, |slots|);
      if k >= 0 {
        var m := slots[k];
        assert r.onNotes == s.onNotes && r.lanes == s.lanes;
        assert forall x | 0 <= x < |s.notes| :: r.notes[x].tick == s.notes[x].tick && (x != m ==> r.notes[x] == s.notes[x]);
        NotesInOrderGrow(s.notes, r.notes, t, t');
        assert SlotsOf(s, channel)[k] == m;
        OnlyLast(s.lanes, Lane(channel, k), m);
        forall l | l in r.lanes
          ensures LaneSpaced(r.notes, r.lanes[l])
        {
          LaneSpacedKept(s.notes, r.notes, s.lanes[l], m);
        }
        return;
      }
    }
    NotesInOrderGrow(s.notes, r.notes, t, t');
  }

  /** What `note_on` at `tick` does, seen from the lane order: a new note
      at `tick` after the existing ones, whose starts stay; it takes slot
      `p` of its channel, whose note it cuts to an end before `tick`, or a
      new slot; no other note, slot list or lane changes but the lane of
      slot `p`, which gets the new note. */
  ghost predicate NoteOnFacts(s: Polyphony, r: Polyphony, long: bool, channel: nat, tick: nat, p: nat)
  {
    var slots := SlotsOf(s, channel);
    var id := |s.notes|;
    var lp := Lane(channel, p);
    && p <= |slots|
    && |r.notes| == id + 1 && r.notes[id].tick == tick
    && (forall x | 0 <= x < id :: r.notes[x].tick == s.notes[x].tick)
    && (p < |slots| ==> slots[p] < id && r.notes[slots[p]].tickEnd < tick)
    && (forall x | 0 <= x < id && (p == |slots| || x != slots[p]) :: r.notes[x] == s.notes[x])
    && (p < |slots| ==> SlotsOf(r, channel) == slots[p := id])
    && (p == |slots| ==> SlotsOf(r, channel) == if long then slots + [id] else slots)
    && (forall ch | ch != channel :: SlotsOf(r, ch) == SlotsOf(s, ch))
    && (long || p == 0 ==> lp in r.lanes && r.lanes[lp] == (if lp in s.lanes then s.lanes[lp] else []) + [id])
    && (forall l | l in s.lanes && (!(long || p == 0) || l != lp) :: l in r.lanes && r.lanes[l] == s.lanes[l])
    && (forall l | l in r.lanes :: l in s.lanes || ((long || p == 0) && l == lp))
  }

  /** `note_on` does what `NoteOnFacts` says, on the first free slot. */
  lemma NoteOnHasFacts(s: Polyphony, gap: int, long: bool, channel: nat, pitch: nat, velocity: nat, tick: nat)
    requires WellFormed(s, gap, long)
    ensures NoteOnFacts(s, NoteOnNext(s, gap, long, channel, pitch, velocity, tick), long, channel, tick,
                        FirstFree(s.notes, SlotsOf(s, channel), pitch, tick, gap, 0))
  {
    NoteOnPlaces(s, gap, long, channel, pitch, velocity, tick);
  }

  /** `note_on` at `tick`, at or after every note so far, keeps the lanes
      in order. */
  lemma NoteOnInOrder(s: Polyphony, gap: int, long: bool, channel: nat, pitch: nat, velocity: nat, tick: nat, t: nat)
    requires LanesInOrder(s, gap, long, t) && t <= tick
    ensures LanesInOrder(NoteOnNext(s, gap, long, channel, pitch, velocity, tick), gap, long, tick)
  {
    var r := NoteOnNext(s, gap, long, channel, pitch, velocity, tick);
    var p := FirstFree(s.notes, SlotsOf(s, channel), pitch, tick, gap, 0);
    NoteOnHasFacts(s, gap, long, channel, pitch, velocity, tick);
    NotesInOrderGrow(s.notes, r.notes, t, tick);
    NoteOnApart(s, r, gap, long, channel, tick, p);
    if long {
      NoteOnSlots(s, r, gap, channel, tick, p);
      NoteOnSpaced(s, r, gap, channel, tick, p, t);
    }
  }

  /** `note_on` appends a new note to one lane, which keeps the lanes
      apart. */
  lemma NoteOnApart(s: Polyphony, r: Polyphony, gap: int, long: bool, channel: nat, tick: nat, p: nat)
    requires forall l | l in s.lanes :: IdsBelow(s.lanes[l], |s.notes|)
    requires LanesApart(s.lanes) && NoteOnFacts(s, r, long, channel, tick, p)
    ensures LanesApart(r.lanes)
  {
    var id := |s.notes|;
    var lp := Lane(channel, p);
    // every lane of `r` is its lane of `s`, or that lane and then `id` for `lp`
    forall l, i | l in r.lanes && 0 <= i < |r.lanes[l]|
      ensures l in s.lanes && i < |s.lanes[l]| ==> r.lanes[l][i] == s.lanes[l][i]
      ensures !(l in s.lanes && i < |s.lanes[l]|) ==> l == lp && r.lanes[l][i] == id
    {
    }
    forall l, i, j | l in r.lanes && 0 <= i < j < |r.lanes[l]|
      ensures r.lanes[l][i] < r.lanes[l][j]
    {
    }
    forall l1, l2, i, j | l1 in r.lanes && l2 in r.lanes && l1 != l2 && 0 <= i < |r.lanes[l1]| && 0 <= j < |r.lanes[l2]|
      ensures r.lanes[l1][i] != r.lanes[l2][j]
    {
    }
  }

  /** The new note of `note_on` in long mode takes its slot and ends the
      lane of that slot. */
  lemma NoteOnSlots(s: Polyphony, r: Polyphony, gap: int, channel: nat, tick: nat, p: nat)
    requires WellFormed(s, gap, true) && SlotsEndLanes(s) && NoteOnFacts(s, r, true, channel, tick, p)
    ensures SlotsEndLanes(r)
  {
    var slots := SlotsOf(s, channel);
    forall ch, k | 0 <= k < |SlotsOf(r, ch)|
      ensures Lane(ch, k) in r.lanes && r.lanes[Lane(ch, k)] != [] && LastOf(r.lanes[Lane(ch, k)]) == SlotsOf(r, ch)[k]
    {
      if ch == channel && k != p {
        assert SlotsOf(r, ch)[k] == slots[k];
      }
    }
  }

  /** In long mode the lanes stay spaced under `note_on`: the note the new
      one follows in its lane is the cut note of its slot, which ends
      before `tick`, every earlier note of that lane ends before that one
      starts, and no other lane holds the cut note. */
  lemma NoteOnSpaced(s: Polyphony, r: Polyphony, gap: int, channel: nat, tick: nat, p: nat, t: nat)
    requires WellFormed(s, gap, true) && NotesInOrder(s.notes, t) && t <= tick
    requires LanesApart(s.lanes) && SlotsEndLanes(s) && LanesSpaced(s.notes, s.lanes)
    requires NoteOnFacts(s, r, true, channel, tick, p)
    ensures LanesSpaced(r.notes, r.lanes)
  {
    var slots := SlotsOf(s, channel);
    var id := |s.notes|;
    var lp := Lane(channel, p);
    var m := if p < |slots| then slots[p] else id;
    if p < |slots| {
      assert SlotsOf(s, channel)[p] == m;
      OnlyLast(s.lanes, lp, m);
    }
    forall l | l in r.lanes
      ensures LaneSpaced(r.notes, r.lanes[l])
    {
      if l != lp {
        LaneSpacedKept(s.notes, r.notes, s.lanes[l], m);
      } else if lp in s.lanes {
        var prev := s.lanes[lp];
        assert prev != [] ==> r.notes[LastOf(prev)].tickEnd < r.notes[id].tick;
        JoinSpaced(s.notes, r.notes, prev, m);
      }
    }
  }

  /** A note that starts after the cut end of the last note of a spaced
      lane, and no earlier than any of its notes, joins it spaced. */
  lemma JoinSpaced(notes: seq<Note>, notes': seq<Note>, prev: seq<nat>, m: nat)
    requires LaneSpaced(notes, prev) && IdsBelow(prev, |notes|) && |notes'| == |notes| + 1
    requires forall x | 0 <= x < |notes| :: notes'[x].tick == notes[x].tick && (x != m ==> notes'[x] == notes[x])
    requires forall i | 0 <= i < |prev| - 1 :: prev[i] != m
    requires forall i | 0 <= i < |prev| :: notes[prev[i]].tick <= notes'[|notes|].tick
    requires prev != [] ==> notes'[LastOf(prev)].tickEnd < notes'[|notes|].tick
    ensures LaneSpaced(notes', prev + [|notes|])
  {
    var id := |notes|;
    LaneSpacedKept(notes, notes', prev, m);
    forall i | 0 <= i < |prev|
      ensures notes'[prev[i]].tickEnd < notes'[id].tick
    {
      if i < |prev| - 1 {
        assert notes[prev[i]].tickEnd < notes[prev[|prev| - 1]].tick;
      }
    }
    LaneSpacedSnoc(notes', prev, id);
  }

  /** One raw event at or after every note so far keeps the lanes in
      order. */
  lemma DispatchInOrder(s: Polyphony, gap: int, long: bool, e: TimedEvent, t: nat)
    requires LanesInOrder(s, gap, long, t) && t <= e.tick
    ensures LanesInOrder(Dispatch(s, gap, long, e), gap, long, e.tick)
  {
    var r := Dispatch(s, gap, long, e);
    match e.msg
    case NoteOn(channel, pitch, velocity) =>
      if velocity > 0 {
        var s1 := NoteOnNext(s, gap, long, channel, pitch, velocity, e.tick);
        NoteOnInOrder(s, gap, long, channel, pitch, velocity, e.tick, t);
        if long {
          assert r == s1;
        } else {
          assert r == NoteOffNext(s1, gap, channel, pitch, e.tick);
          NoteOffInOrder(s1, gap, long, channel, pitch, e.tick, e.tick, e.tick);
        }
      } else {
        NoteOffInOrder(s, gap, long, channel, pitch, e.tick, t, e.tick);
        assert r == if long then NoteOffNext(s, gap, channel, pitch, e.tick) else s;
      }
    case NoteOff(channel, pitch) =>
      NoteOffInOrder(s, gap, long, channel, pitch, e.tick, t, e.tick);
      assert r == if long then NoteOffNext(s, gap, channel, pitch, e.tick) else s;
    case TimeSignature(_, _) =>
      NotesInOrderGrow(s.notes, s.notes, t, e.tick);
    case SetTempo(_) =>
      NotesInOrderGrow(s.notes, s.notes, t, e.tick);
  }

  /** The lane pass over raw events in tick order keeps its lanes in
      order. */
  lemma {:induction false} AssignAllInOrder(gap: int, long: bool, raw: seq<TimedEvent>)
    requires NonDecreasing(raw)
    ensures LanesInOrder(AssignAll(EmptyPolyphony(), gap, long, raw), gap, long, if raw == [] then 0 else raw[|raw| - 1].tick)
  {
    if raw != [] {
      var init := raw[..|raw| - 1];
      AssignAllInOrder(gap, long, init);
      DispatchInOrder(AssignAll(EmptyPolyphony(), gap, long, init), gap, long, raw[|raw| - 1],
                      if init == [] then 0 else init[|init| - 1].tick);
    }
  }

  /** Every event regenerated from a lane whose notes all end at or before
      `b` is at or before `b`. */
  lemma {:induction false} RegeneratedBefore(notes: seq<Note>, lane: seq<nat>, b: int)
    requires IdsBelow(lane, |notes|)
    requires forall i | 0 <= i < |lane| :: notes[lane[i]].tickEnd <= b
    ensures forall x | x in Regenerated(notes, lane) :: x.tick <= b && IsNoteEvent(x)
  {
    if lane != [] {
      RegeneratedBefore(notes, lane[..|lane| - 1], b);
    }
  }

  /** A lane whose notes follow each other without overlap regenerates into
      events in tick order. */
  lemma {:induction false} RegeneratedNonDecreasing(notes: seq<Note>, lane: seq<nat>)
    requires IdsBelow(lane, |notes|)
    requires forall i, j | 0 <= i < j < |lane| :: notes[lane[i]].tickEnd < notes[lane[j]].tick
    ensures NonDecreasing(Regenerated(notes, lane))
    ensures forall x | x in Regenerated(notes, lane) :: IsNoteEvent(x)
  {
    if lane != [] {
      var init := lane[..|lane| - 1];
      var n := notes[LastOf(lane)];
      RegeneratedNonDecreasing(notes, init);
      RegeneratedBefore(notes, init, n.tick);
      var a: seq<TimedEvent>, b: seq<TimedEvent> := Regenerated(notes, init), NoteEvents(n);
      assert Regenerated(notes, lane) == a + b;
      NonDecreasingAppend(a, b, n.tick);
    }
  }

  /** The events of a lane are in merge-key order: in long mode because its
      notes follow each other without overlap, in hit mode because its
      note-ons keep the order the notes were made in. */
  lemma LaneEventsSorted(p: Polyphony, gap: int, long: bool, lane: Lane, t: nat)
    requires LanesInOrder(p, gap, long, t) && lane in p.lanes
    ensures KeySorted(LaneEvents(p, gap, long, lane))
  {
    var ids := p.lanes[lane];
    var r := LaneEvents(p, gap, long, lane);
    if long {
      RegeneratedNonDecreasing(p.notes, ids);
    } else {
      forall i, j | 0 <= i < j < |r|
        ensures r[i].tick <= r[j].tick
      {
        assert ids[i] < ids[j];
      }
    }
    forall k | 0 <= k < |r|
      ensures Rank(r[k]) == 1
    {
      assert r[k] in r;
    }
    NonDecreasingKeySorted(r, 1);
  }

  /** On raw note events in tick order, every chart `main` converts holds
      its events in merge-key order, as `merge_sorted` expects. */
  lemma MainChartsSorted(ticksPerBeat: Pos, raw: seq<TimedEvent>, sym: char, gapNum: int, gapDen: Pos)
    requires NonDecreasing(raw)
    ensures var gap, long := TicksGap(ticksPerBeat, gapNum, gapDen, IsLongNote(sym)), IsLongNote(sym);
      var charts := MainCharts(LanePass(ticksPerBeat, raw, sym, gapNum, gapDen), gap, long);
      forall k | 0 <= k < |charts| :: KeySorted(charts[k].1)
  {
    var gap, long := TicksGap(ticksPerBeat, gapNum, gapDen, IsLongNote(sym)), IsLongNote(sym);
    var notes := if sym == '0' then [] else raw;
    AssignAllInOrder(gap, long, notes);
    var p := LanePass(ticksPerBeat, raw, sym, gapNum, gapDen);
    var t := if notes == [] then 0 else notes[|notes| - 1].tick;
    forall k | 0 <= k < |p.laneOrder|
      ensures KeySorted(LaneEvents(p, gap, long, p.laneOrder[k]))
    {
      LaneEventsSorted(p, gap, long, p.laneOrder[k], t);
    }
  }

  // ---------------------------------------------------------------------
  // The closures' state, as an object

  /** The state `note_on` and `note_off` share: the note objects, `on_notes`
      and `note_events`, with `ticks_gap` and `is_long_note(NOTE_SYMBOL)`
      fixed for the run. */
  class LaneAssigner {
    const gap: int
    const long: bool
    var notes: seq<Note>
    var onNotes: map<nat, seq<nat>>
    var lanes: map<Lane, seq<nat>>
    var laneOrder: seq<Lane>

    function Value(): Polyphony
      reads this
    {
      Polyphony(notes, onNotes, lanes, laneOrder)
    }

    ghost predicate Valid()
      reads this
    {
      WellFormed(Value(), gap, long)
    }

    /** The empty `note_events` and `on_notes` of `main`. */
    constructor (gap: int, long: bool)
      ensures this.gap == gap && this.long == long
      ensures Value() == EmptyPolyphony() && Valid()
    {
      this.gap, this.long := gap, long;
      notes, onNotes, lanes, laneOrder := [], map[], map[], [];
    }

    /** The slot loop of `note_on` (midi_to_tja.py:250-265): the first slot
        whose view under the cut is free, with that view, or the number of
        slots when none is. */
    method FindFreeSlot(slots: seq<nat>, pitch: nat, tick: nat) returns (polypos: nat, cut: Note)
      requires IdsBelow(slots, |notes|)
      ensures polypos == FirstFree(notes, slots, pitch, tick, gap, 0)
      ensures polypos < |slots| ==> cut == CutView(notes[slots[polypos]], pitch, tick, gap)
    {
      polypos := |slots|;
      cut := Note(0, 0, 0, 0, 0, 0);
      var i := 0;
      while i < |slots|
        invariant 0 <= i <= |slots|
        invariant FirstFree(notes, slots, pitch, tick, gap, 0) == FirstFree(notes, slots, pitch, tick, gap, i)
      {
        var e := notes[slots[i]];
        var view := e;
        // a slot holding the same pitch is seen through its cut copy
        if e.pitch == pitch {
          if view.usecEnd == Unended {
            view := view.(tickEnd := tick, usecEnd := Ended);
          }
          view := view.(tickEnd := Max(view.tick + gap, Min(view.tickEnd, tick - gap)));
        }
        assert view == CutView(e, pitch, tick, gap);
        if view.usecEnd != Unended && tick > view.tickEnd {
          return i, view;
        }
        i := i + 1;
      }
    }

    /** `note_on(msg, tick)` (midi_to_tja.py:243-271). */
    method NoteOn(channel: nat, pitch: nat, velocity: nat, tick: nat)
      requires Valid()
      modifies this
      ensures Value() == NoteOnNext(old(Value()), gap, long, channel, pitch, velocity, tick)
      ensures Valid()
    {
      var slots := if channel in onNotes then onNotes[channel] else [];
      var id := |notes|;
      var polypos, cut := FindFreeSlot(slots, pitch, tick);
      notes := notes + [Note(channel, pitch, velocity, tick, tick + gap, Unended)];
      if polypos < |slots| {
        // the free slot takes the new note; the note it held is cut
        onNotes := onNotes[channel := slots[polypos := id]];
        notes := notes[slots[polypos] := cut];
      } else {
        onNotes := onNotes[channel := if long then slots + [id] else slots];
      }
      if long || polypos == 0 {
        var lane := Lane(channel, polypos);
        if lane in lanes {
          lanes := lanes[lane := lanes[lane] + [id]];
        } else {
          lanes := lanes[lane := [id]];
          laneOrder := laneOrder + [lane];
        }
      }
    }

    /** `note_off(msg, tick)` (midi_to_tja.py:273-282). */
    method NoteOff(channel: nat, pitch: nat, tick: nat)
      requires Valid()
      modifies this
      ensures Value() == NoteOffNext(old(Value()), gap, channel, pitch, tick) && Valid()
    {
      NoteOffWellFormed(Value(), gap, long, channel, pitch, tick);
      if channel !in onNotes {
        return;
      }
      var slots := onNotes[channel];
      var i := |slots| - 1;
      while i >= 0
        invariant -1 <= i < |slots|
        invariant notes == old(notes)
        invariant LastSounding(notes, slots, pitch, |slots|) == LastSounding(notes, slots, pitch, i + 1)
      {
        var e := notes[slots[i]];
        if e.usecEnd == Unended && e.pitch == pitch {
          notes := notes[slots[i] := e.(tickEnd := Max(e.tick + gap, tick), usecEnd := Ended)];
          return;
        }
        i := i - 1;
      }
    }

    /** The loop over `raw_note_events` (midi_to_tja.py:284-293). */
    method AssignLanes(raw: seq<TimedEvent>)
      requires Valid()
      modifies this
      ensures Value() == AssignAll(old(Value()), gap, long, raw) && Valid()
    {
      ghost var s := Value();
      for i := 0 to |raw|
        invariant Valid() && Value() == AssignAll(s, gap, long, raw[..i])
      {
        assert raw[..i + 1][..i] == raw[..i];
        DispatchEvent(raw[i]);
      }
      assert raw[..|raw|] == raw;
    }

    /** One raw note event of the loop (midi_to_tja.py:284-293). */
    method DispatchEvent(e: TimedEvent)
      requires Valid()
      modifies this
      ensures Value() == Dispatch(old(Value()), gap, long, e) && Valid()
    {
      match e.msg {
        case NoteOn(channel, pitch, velocity) =>
          if velocity > 0 {
            NoteOn(channel, pitch, velocity, e.tick);
            if !long {
              NoteOff(channel, pitch, e.tick);
            }
          } else if long {
            NoteOff(channel, pitch, e.tick);
          }
        case NoteOff(channel, pitch) =>
          if long {
            NoteOff(channel, pitch, e.tick);
          }
        case TimeSignature(_, _) =>
        case SetTempo(_) =>
      }
    }

    /** The charts `main` converts, in the order their lanes were created:
        each lane's regenerated events in long mode (midi_to_tja.py:296-305),
        its note-ons as they are in hit mode, and one empty chart on lane
        `(0, 0)` when there is no lane at all (midi_to_tja.py:308-309). */
    method Charts() returns (charts: seq<(Lane, seq<TimedEvent>)>)
      requires Valid()
      ensures laneOrder == [] ==> charts == [(Lane(0, 0), [])]
      ensures laneOrder != [] ==> |charts| == |laneOrder|
      ensures laneOrder != [] ==> forall k | 0 <= k < |charts| ::
        && charts[k].0 == laneOrder[k]
        && charts[k].1 == (if long then Regenerated(notes, lanes[laneOrder[k]]) else HitEvents(notes, lanes[laneOrder[k]]))
    {
      if laneOrder == [] {
        return [(Lane(0, 0), [])];
      }
      charts := [];
      for k := 0 to |laneOrder|
        invariant |charts| == k
        invariant forall j | 0 <= j < k :: charts[j] == (laneOrder[j], LaneEvents(Value(), gap, long, laneOrder[j]))
      {
        var lane := laneOrder[k];
        OrderedLane(Value(), gap, long, k);
        var events := lanes[lane];
        var chart: seq<TimedEvent>;
        if long {
          chart := RegenerateLane(events);
        } else {
          chart := HitEvents(notes, events);
        }
        charts := charts + [(lane, chart)];
      }
    }

    /** One lane's regeneration loop: each lasting note followed by a
        synthesised note-off at its end. */
    method RegenerateLane(events: seq<nat>) returns (newEvents: seq<TimedEvent>)
      requires IdsBelow(events, |notes|)
      ensures newEvents == Regenerated(notes, events)
    {
      newEvents := [];
      for i := 0 to |events|
        invariant newEvents == Regenerated(notes, events[..i])
      {
        assert events[..i + 1][..i] == events[..i];
        var e := notes[events[i]];
        if e.tickEnd > e.tick {
          newEvents := newEvents + [OnEvent(e), OffEvent(e)];
        }
      }
      assert events[..|events|] == events;
    }
  }

  // ---------------------------------------------------------------------
  // Initial tempo and the per-lane conversion

  /** The number of leading timing events at tick 0: where the seeding loop
      breaks. */
  function ZeroRun(timing: seq<TimedEvent>): (n: nat)
    ensures n <= |timing|
    ensures forall k | 0 <= k < n :: timing[k].tick == 0
    ensures n < |timing| ==> timing[n].tick > 0
  {
    if timing == [] || timing[0].tick > 0 then 0 else 1 + ZeroRun(timing[1..])
  }

  /** The tempo the seeding loop leaves: each set_tempo among the leading
      tick-0 events replaces the one before. */
  function LeadingTempo(timing: seq<TimedEvent>, tempo: nat): nat
  {
    if timing == [] || timing[0].tick > 0 then tempo
    else LeadingTempo(timing[1..], if timing[0].msg.SetTempo? then timing[0].msg.tempo else tempo)
  }

  /** The seeded tempo is that of the last set_tempo at tick 0 before the
      first later event, and the default when there is none. */
  lemma LeadingTempoIsLast(timing: seq<TimedEvent>, tempo: nat)
    ensures var r, z := LeadingTempo(timing, tempo), ZeroRun(timing);
      && ((forall k | 0 <= k < z :: !timing[k].msg.SetTempo?) ==> r == tempo)
      && forall k | 0 <= k < z && timing[k].msg.SetTempo? && (forall j | k < j < z :: !timing[j].msg.SetTempo?) ::
           r == timing[k].msg.tempo
  {
    LeadingTempoDefault(timing, tempo);
    forall k | 0 <= k < ZeroRun(timing) && timing[k].msg.SetTempo? &&
               (forall j | k < j < ZeroRun(timing) :: !timing[j].msg.SetTempo?)
      ensures LeadingTempo(timing, tempo) == timing[k].msg.tempo
    {
      LeadingTempoLast(timing, tempo, k);
    }
  }

  /** Without a set_tempo among the leading tick-0 events the tempo stays. */
  lemma {:induction false} LeadingTempoDefault(timing: seq<TimedEvent>, tempo: nat)
    ensures (forall k | 0 <= k < ZeroRun(timing) :: !timing[k].msg.SetTempo?) ==> LeadingTempo(timing, tempo) == tempo
  {
    if timing != [] && timing[0].tick == 0 && forall k | 0 <= k < ZeroRun(timing) :: !timing[k].msg.SetTempo? {
      var rest := timing[1..];
      assert ZeroRun(timing) == 1 + ZeroRun(rest);
      assert !timing[0].msg.SetTempo?;
      forall j | 0 <= j < ZeroRun(rest)
        ensures !rest[j].msg.SetTempo?
      {
        assert rest[j] == timing[j + 1];
      }
      LeadingTempoDefault(rest, tempo);
    }
  }

  /** A set_tempo among the leading tick-0 events with none after it in the
      run decides the tempo. */
  lemma {:induction false} LeadingTempoLast(timing: seq<TimedEvent>, tempo: nat, k: nat)
    requires k < ZeroRun(timing) && timing[k].msg.SetTempo?
    requires forall j | k < j < ZeroRun(timing) :: !timing[j].msg.SetTempo?
    ensures LeadingTempo(timing, tempo) == timing[k].msg.tempo
  {
    var rest := timing[1..];
    assert ZeroRun(timing) == 1 + ZeroRun(rest);
    var t1 := if timing[0].msg.SetTempo? then timing[0].msg.tempo else tempo;
    assert LeadingTempo(timing, tempo) == LeadingTempo(rest, t1);
    if k == 0 {
      forall j | 0 <= j < ZeroRun(rest)
        ensures !rest[j].msg.SetTempo?
      {
        assert rest[j] == timing[j + 1];
      }
      LeadingTempoDefault(rest, t1);
    } else {
      assert rest[k - 1] == timing[k];
      forall j | k - 1 < j < ZeroRun(rest)
        ensures !rest[j].msg.SetTempo?
      {
        assert rest[j] == timing[j + 1];
      }
      LeadingTempoLast(rest, t1, k - 1);
    }
  }

  /** The seeding loop of `main` (midi_to_tja.py:313-317): only the tempo
      of the fresh state changes. */
  method SeedTempo(state: ChartState, timing: seq<TimedEvent>)
    modifies state
    ensures state.Value() == old(state.Value()).(usecPerBeat := LeadingTempo(timing, old(state.usecPerBeat)))
  {
    var i := 0;
    while i < |timing| && timing[i].tick == 0
      invariant 0 <= i <= |timing|
      invariant LeadingTempo(timing[i..], state.usecPerBeat) == LeadingTempo(timing, old(state.usecPerBeat))
      invariant state.Value() == old(state.Value()).(usecPerBeat := state.usecPerBeat)
    {
      assert timing[i..][1..] == timing[i + 1..];
      if timing[i].msg.SetTempo? {
        state.usecPerBeat := timing[i].msg.tempo;
      }
      i := i + 1;
    }
  }

  /** What `main` writes for one lane: the `BALLOON:` records of the silent
      scan when the symbol is a balloon and the scan opened any, and the
      chart body between `#START` and `#END`. */
  datatype ChartText = ChartText(lane: Lane, balloons: seq<Balloon>, hasBalloons: bool, body: seq<Token>)

  /** What the conversion of one lane promises, from the seeded timing `t`:
      the `BALLOON:` records are those of the silent scan, present only for
      a balloon symbol and when the scan opened any; the `scan_measure`
      calls are those `scan_chart` makes from `t` on the merged events
      (`ScanFlushes`), each with the start and length of its measure; the
      chart has one `,` per call and the calls partition the merged events;
      and on sorted inputs each measure has exactly its grid's cells and
      the balloon records are sound. */
  ghost predicate Converted(t: Timing, timing: seq<TimedEvent>, events: seq<TimedEvent>, sym: char,
                            text: ChartText, flushes: seq<Flush>)
  {
    var merged := Merged(timing, events);
    var scanned := ScanFrom(t, merged, 0, 0, sym).balloons;
    && text.hasBalloons == (IsBalloonNote(sym) && scanned != [])
    && (text.hasBalloons ==> text.balloons == scanned)
    && (!text.hasBalloons ==> text.balloons == [])
    && flushes == ScanFlushes(t, merged, 0, 0, sym)
    && Partition(flushes, |timing| + |events|)
    && MeasureEnds(text.body) == |flushes|
    && (KeySorted(timing) && KeySorted(events) ==>
          && FlushesEndBefore(merged, flushes)
          && CellCount(text.body) == GridCells(merged, flushes)
          && RecordsSound(text.balloons))
  }

  /** The body of the loop over lanes (midi_to_tja.py:330-353): merge the
      lane into the timing events, count balloons on a copy of the seeded
      state, then write the chart from another copy. */
  method ConvertChart(state: ChartState, timing: seq<TimedEvent>, lane: Lane, events: seq<TimedEvent>, sym: char)
    returns (text: ChartText, ghost flushes: seq<Flush>)
    requires state.Value() == InitialTiming(state.ticksPerBeat).(usecPerBeat := state.usecPerBeat)
    ensures Converted(state.Value(), timing, events, sym, text, flushes)
    ensures text.lane == lane && MeasureEnds(text.body) >= 1
    ensures text.hasBalloons ==> IsBalloonNote(sym)
  {
    var merged := MergeSorted(timing, events);
    var balloons, hasBalloons := CountBalloons(state, merged, sym);
    var output := state.Copy();
    var body;
    body, flushes := output.ScanChart(merged, sym, true);
    text := ChartText(lane, balloons, hasBalloons, body);
    ConvertedOf(state.Value(), timing, events, sym, text, flushes);
  }

  /** The balloon count of the loop over lanes (midi_to_tja.py:335-345):
      only for a balloon symbol, a silent scan of `merged` from a copy of
      the seeded state; its balloons are kept when there is at least one. */
  method CountBalloons(state: ChartState, merged: seq<TimedEvent>, sym: char)
    returns (balloons: seq<Balloon>, hasBalloons: bool)
    ensures var scanned := ScanFrom(state.Value(), merged, 0, 0, sym).balloons;
      && hasBalloons == (IsBalloonNote(sym) && scanned != [])
      && balloons == (if hasBalloons then scanned else [])
  {
    balloons, hasBalloons := [], false;
    if IsBalloonNote(sym) {
      var scan := state.Copy();
      var _, _ := scan.ScanChart(merged, sym, false);
      hasBalloons := scan.balloons != [];
      if hasBalloons {
        balloons := scan.balloons;
      }
    }
  }

  /** What the loop over lanes writes, from what its two scans give: the
      chart's flushes and cells come from the writing scan of the merged
      events, its balloons from the silent one, and on lanes and timing
      events in key order the balloons are sound. */
  lemma ConvertedOf(t: Timing, timing: seq<TimedEvent>, events: seq<TimedEvent>, sym: char,
                    text: ChartText, flushes: seq<Flush>)
    requires t == InitialTiming(t.ticksPerBeat).(usecPerBeat := t.usecPerBeat)
    requires var scanned := ScanFrom(t, Merged(timing, events), 0, 0, sym).balloons;
      && text.hasBalloons == (IsBalloonNote(sym) && scanned != [])
      && text.balloons == (if text.hasBalloons then scanned else [])
    requires flushes == ScanFlushes(t, Merged(timing, events), 0, 0, sym)
    requires Partition(flushes, |Merged(timing, events)|)
    requires MeasureEnds(text.body) == |flushes|
    requires NonDecreasing(Merged(timing, events)) ==>
      && FlushesEndBefore(Merged(timing, events), flushes)
      && CellCount(text.body) == GridCells(Merged(timing, events), flushes)
    ensures Converted(t, timing, events, sym, text, flushes)
  {
    MergedPermutes(timing, events);
    if KeySorted(timing) && KeySorted(events) {
      SortedMergeSound(t, timing, events, sym);
    }
  }

  /** On key-sorted inputs the merge is in tick order, and the silent scan
      of it from the seeded state leaves sound balloon records. */
  lemma SortedMergeSound(t: Timing, timing: seq<TimedEvent>, events: seq<TimedEvent>, sym: char)
    requires t == InitialTiming(t.ticksPerBeat).(usecPerBeat := t.usecPerBeat)
    requires KeySorted(timing) && KeySorted(events)
    ensures NonDecreasing(Merged(timing, events))
    ensures RecordsSound(ScanFrom(t, Merged(timing, events), 0, 0, sym).balloons)
  {
    MergedSorted(timing, events);
    KeySortedNonDecreasing(Merged(timing, events));
    ChartBalloonsSound(t.ticksPerBeat, t.usecPerBeat, Merged(timing, events), sym);
  }

  /** The state of the lane pass of `main` (midi_to_tja.py:225, 233-234,
      240-293): `raw` are the note events of the file sorted by tick, of
      which none is collected when `sym` (`NOTE_SYMBOL`) is '0', and
      `gapNum / gapDen` is `--long-gap`. */
  function LanePass(ticksPerBeat: Pos, raw: seq<TimedEvent>, sym: char, gapNum: int, gapDen: Pos): (p: Polyphony)
    ensures WellFormed(p, TicksGap(ticksPerBeat, gapNum, gapDen, IsLongNote(sym)), IsLongNote(sym))
  {
    AssignAll(EmptyPolyphony(), TicksGap(ticksPerBeat, gapNum, gapDen, IsLongNote(sym)), IsLongNote(sym),
              if sym == '0' then [] else raw)
  }

  /** The events `main` converts for a lane of the pass: its regenerated
      note-on/note-off pairs in long mode, its note-ons as they are in hit
      mode. */
  function LaneEvents(p: Polyphony, gap: int, long: bool, lane: Lane): seq<TimedEvent>
    requires WellFormed(p, gap, long) && lane in p.lanes
  {
    if long then Regenerated(p.notes, p.lanes[lane]) else HitEvents(p.notes, p.lanes[lane])
  }

  /** The charts `main` converts after the pass: one per lane in the order
      the lanes were created, or one empty chart on lane `(0, 0)`. */
  function MainCharts(p: Polyphony, gap: int, long: bool): seq<(Lane, seq<TimedEvent>)>
    requires WellFormed(p, gap, long)
  {
    if p.laneOrder == [] then [(Lane(0, 0), [])]
    else seq(|p.laneOrder|, k requires 0 <= k < |p.laneOrder| => (p.laneOrder[k], LaneEvents(p, gap, long, p.laneOrder[k])))
  }

  /** The lanes `main` converts (midi_to_tja.py:225, 233-234, 240-309):
      one chart per lane of `LanePass` in the order the lanes were created,
      holding that lane's `LaneEvents`, or one empty chart on lane
      `(0, 0)`. */
  method LaneCharts(ticksPerBeat: Pos, raw: seq<TimedEvent>, sym: char, gapNum: int, gapDen: Pos)
    returns (charts: seq<(Lane, seq<TimedEvent>)>)
    ensures var gap, long := TicksGap(ticksPerBeat, gapNum, gapDen, IsLongNote(sym)), IsLongNote(sym);
      var p := LanePass(ticksPerBeat, raw, sym, gapNum, gapDen);
      && charts == MainCharts(p, gap, long)
      && |charts| == (if p.laneOrder == [] then 1 else |p.laneOrder|)
      && forall k | 0 <= k < |charts| :: charts[k].0 == (if p.laneOrder == [] then Lane(0, 0) else p.laneOrder[k])
    ensures var gap, long := TicksGap(ticksPerBeat, gapNum, gapDen, IsLongNote(sym)), IsLongNote(sym);
      var p := LanePass(ticksPerBeat, raw, sym, gapNum, gapDen);
      forall k | 0 <= k < |p.laneOrder| ::
        && charts[k].1 == (if long then Regenerated(p.notes, p.lanes[p.laneOrder[k]]) else HitEvents(p.notes, p.lanes[p.laneOrder[k]]))
    ensures sym == '0' ==> charts == [(Lane(0, 0), [])]
  {
    var notes := if sym == '0' then [] else raw;
    var gap := TicksGap(ticksPerBeat, gapNum, gapDen, IsLongNote(sym));
    var assigner := new LaneAssigner(gap, IsLongNote(sym));
    assigner.AssignLanes(notes);
    charts := assigner.Charts();
  }

  /** The loop over the lanes of `main` (midi_to_tja.py:325-353): every
      chart converted from the same seeded state, in order; the ghost
      `flushes` holds each chart's `scan_measure` calls. */
  method ConvertAll(state: ChartState, timing: seq<TimedEvent>, charts: seq<(Lane, seq<TimedEvent>)>, sym: char)
    returns (texts: seq<ChartText>, ghost flushes: seq<seq<Flush>>)
    requires state.Value() == InitialTiming(state.ticksPerBeat).(usecPerBeat := state.usecPerBeat)
    ensures |texts| == |charts| && |flushes| == |charts|
    ensures forall k | 0 <= k < |texts| :: texts[k].lane == charts[k].0
    ensures forall k | 0 <= k < |texts| :: Converted(state.Value(), timing, charts[k].1, sym, texts[k], flushes[k])
    ensures forall k | 0 <= k < |texts| :: MeasureEnds(texts[k].body) >= 1
    ensures forall k | 0 <= k < |texts| :: texts[k].hasBalloons ==> IsBalloonNote(sym)
  {
    texts, flushes := [], [];
    for k := 0 to |charts|
      invariant |texts| == k && |flushes| == k
      invariant forall j | 0 <= j < k :: texts[j].lane == charts[j].0
      invariant forall j | 0 <= j < k :: Converted(state.Value(), timing, charts[j].1, sym, texts[j], flushes[j])
      invariant forall j | 0 <= j < k :: MeasureEnds(texts[j].body) >= 1
      invariant forall j | 0 <= j < k :: texts[j].hasBalloons ==> IsBalloonNote(sym)
    {
      var text, f := ConvertChart(state, timing, charts[k].0, charts[k].1, sym);
      ConvertedSnoc(state.Value(), timing, charts[..k + 1], sym, texts, flushes, text, f);
      texts, flushes := texts + [text], flushes + [f];
    }
  }

  /** The charts converted so far stay converted when one more is. */
  lemma ConvertedSnoc(t: Timing, timing: seq<TimedEvent>, charts: seq<(Lane, seq<TimedEvent>)>, sym: char,
                      texts: seq<ChartText>, flushes: seq<seq<Flush>>, text: ChartText, f: seq<Flush>)
    requires |texts| == |flushes| == |charts| - 1
    requires forall j | 0 <= j < |texts| :: Converted(t, timing, charts[j].1, sym, texts[j], flushes[j])
    requires Converted(t, timing, charts[|texts|].1, sym, text, f)
    ensures forall j | 0 <= j < |texts| + 1 ::
      Converted(t, timing, charts[j].1, sym, (texts + [text])[j], (flushes + [f])[j])
  {
  }

  /** `main` after the MIDI file is read: the charts of `LaneCharts`, each
      converted from the same state seeded with the tick-0 tempo of the
      sorted `timing` events (midi_to_tja.py:311-353).  On raw note events
      in tick order, as `main` sorts them, every chart's events are in
      merge-key order, so the sorted-input facts of `Converted` hold of
      every chart once the timing events are in key order too. */
  method Convert(ticksPerBeat: Pos, timing: seq<TimedEvent>, raw: seq<TimedEvent>, sym: char, gapNum: int, gapDen: Pos)
    returns (tempo: nat, texts: seq<ChartText>, ghost flushes: seq<seq<Flush>>)
    ensures tempo == LeadingTempo(timing, DefaultUsecPerBeat)
    ensures var gap, long := TicksGap(ticksPerBeat, gapNum, gapDen, IsLongNote(sym)), IsLongNote(sym);
      var p := LanePass(ticksPerBeat, raw, sym, gapNum, gapDen);
      var charts := MainCharts(p, gap, long);
      && |texts| == |charts| && |flushes| == |charts|
      && (forall k | 0 <= k < |texts| :: texts[k].lane == (if p.laneOrder == [] then Lane(0, 0) else p.laneOrder[k]))
      && forall k | 0 <= k < |texts| ::
           Converted(InitialTiming(ticksPerBeat).(usecPerBeat := tempo), timing, charts[k].1, sym, texts[k], flushes[k])
    ensures var gap, long := TicksGap(ticksPerBeat, gapNum, gapDen, IsLongNote(sym)), IsLongNote(sym);
      var charts := MainCharts(LanePass(ticksPerBeat, raw, sym, gapNum, gapDen), gap, long);
      NonDecreasing(raw) ==> forall k | 0 <= k < |charts| :: KeySorted(charts[k].1)
    ensures var gap, long := TicksGap(ticksPerBeat, gapNum, gapDen, IsLongNote(sym)), IsLongNote(sym);
      var charts := MainCharts(LanePass(ticksPerBeat, raw, sym, gapNum, gapDen), gap, long);
      NonDecreasing(raw) && KeySorted(timing) ==> forall k | 0 <= k < |texts| ::
        && FlushesEndBefore(Merged(timing, charts[k].1), flushes[k])
        && CellCount(texts[k].body) == GridCells(Merged(timing, charts[k].1), flushes[k])
        && RecordsSound(texts[k].balloons)
    ensures sym == '0' ==> |texts| == 1 && texts[0].lane == Lane(0, 0)
    ensures forall k | 0 <= k < |texts| :: MeasureEnds(texts[k].body) >= 1
    ensures forall k | 0 <= k < |texts| :: texts[k].hasBalloons ==> IsBalloonNote(sym)
  {
    var charts := LaneCharts(ticksPerBeat, raw, sym, gapNum, gapDen);
    var state := new ChartState(ticksPerBeat);
    SeedTempo(state, timing);
    tempo := state.usecPerBeat;
    texts, flushes := ConvertAll(state, timing, charts, sym);
    if NonDecreasing(raw) {
      MainChartsSorted(ticksPerBeat, raw, sym, gapNum, gapDen);
    }
  }
}
