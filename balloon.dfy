/** MIDI_to_TJA_balloon.py: the lane assignment with `None` tombstone slots
    (the `note_on`/`note_off` closures of `main`, lines 198-234), the
    gap-clamped regeneration (lines 236-248) and the conversion of each lane.
    Its `ChartState` (lines 42-172) is the one of midi_to_tja.py with the
    note symbol fixed to '7', a long balloon symbol, for which the branches
    that differ coincide; the scan is `ChartScan` with `BalloonSymbol`. */
module MidiToTjaBalloon {
  import opened Events
  import opened ChartScan
  import M = MidiToTja
  import Merge

  datatype Option<T> = None | Some(value: T)

  /** The symbol this script writes for every note. */
  const BalloonSymbol: char := '7'

  /** '7' is a long note and a balloon: midi_to_tja.py's `scan_measure`
      with this symbol takes the branches of this script's copy. */
  lemma BalloonSymbolIsBalloon()
    ensures IsKnownNote(BalloonSymbol) && IsLongNote(BalloonSymbol) && IsBalloonNote(BalloonSymbol)
  {
  }

  /** A note-on `ChartEvent` of the lane pass; this script does not mark
      notes as ended. */
  datatype Note = Note(channel: nat, pitch: nat, velocity: nat, tick: nat, tickEnd: int)

  /** A slot list: `None` marks a freed slot. */
  type Slots = seq<Option<nat>>

  /** Every occupied slot of `channel` names an existing note of that
      channel. */
  predicate SlotsIn(slots: Slots, notes: seq<Note>, channel: nat)
  {
    forall k | 0 <= k < |slots| && slots[k].Some? :: slots[k].value < |notes| && notes[slots[k].value].channel == channel
  }

  /** The first freed slot from `from` on, or the number of slots. */
  function FirstNone(slots: Slots, from: nat): (r: nat)
    requires from <= |slots|
    ensures from <= r <= |slots|
    ensures r < |slots| ==> slots[r] == None
    ensures forall k | from <= k < r :: slots[k].Some?
    decreases |slots| - from
  {
    if from == |slots| || slots[from] == None then from else FirstNone(slots, from + 1)
  }

  /** A slot `note_off` may free: occupied by a note of the given pitch. */
  predicate Holds(notes: seq<Note>, slot: Option<nat>, pitch: nat)
  {
    slot.Some? && slot.value < |notes| && notes[slot.value].pitch == pitch
  }

  /** The highest slot below `hi` holding a note of `pitch`, or -1. */
  function LastHolding(notes: seq<Note>, slots: Slots, pitch: nat, hi: nat): (r: int)
    requires hi <= |slots|
    ensures -1 <= r < hi
    ensures r >= 0 ==> Holds(notes, slots[r], pitch)
    ensures forall k | r < k < hi :: !Holds(notes, slots[k], pitch)
  {
    if hi == 0 then -1
    else if Holds(notes, slots[hi - 1], pitch) then hi - 1
    else LastHolding(notes, slots, pitch, hi - 1)
  }

  /** The note objects, `on_notes` and `note_events` with its key order. */
  datatype Tombstones = Tombstones(
    notes: seq<Note>,
    onNotes: map<nat, Slots>,
    lanes: map<M.Lane, seq<nat>>,
    laneOrder: seq<M.Lane>)

  function SlotsOf(s: Tombstones, channel: nat): Slots
  {
    if channel in s.onNotes then s.onNotes[channel] else []
  }

  /** No note sits in two slots of its channel. */
  predicate DistinctSlots(slots: Slots)
  {
    forall i, j | 0 <= i < j < |slots| && slots[i].Some? && slots[j].Some? :: slots[i].value != slots[j].value
  }

  /** Slots and lanes name existing notes, no note is in two slots, and the
      key order lists each lane once. */
  ghost predicate WellFormed(s: Tombstones)
  {
    && (forall ch | ch in s.onNotes :: SlotsIn(s.onNotes[ch], s.notes, ch) && DistinctSlots(s.onNotes[ch]))
    && (forall l | l in s.lanes :: M.IdsBelow(s.lanes[l], |s.notes|))
    && (forall l :: l in s.lanes <==> l in s.laneOrder)
    && (forall i, j | 0 <= i < j < |s.laneOrder| :: s.laneOrder[i] != s.laneOrder[j])
  }

  function AddToLane(s: Tombstones, lane: M.Lane, id: nat): Tombstones
  {
    if lane in s.lanes then s.(lanes := s.lanes[lane := s.lanes[lane] + [id]])
    else s.(lanes := s.lanes[lane := [id]], laneOrder := s.laneOrder + [lane])
  }

  lemma AddToLaneWellFormed(s: Tombstones, lane: M.Lane, id: nat)
    requires WellFormed(s) && id < |s.notes|
    ensures WellFormed(AddToLane(s, lane, id))
  {
  }

  /** The new note in the first freed slot of its channel, or in a slot
      appended at the end. */
  function Seat(s: Tombstones, n: Note): (r: Tombstones)
    requires WellFormed(s)
    ensures WellFormed(r)
    ensures r.notes == s.notes + [n] && r.lanes == s.lanes && r.laneOrder == s.laneOrder
    ensures forall ch | ch != n.channel :: SlotsOf(r, ch) == SlotsOf(s, ch)
    ensures var slots, p := SlotsOf(s, n.channel), FirstNone(SlotsOf(s, n.channel), 0);
      SlotsOf(r, n.channel) == if p < |slots| then slots[p := Some(|s.notes|)] else slots + [Some(|s.notes|)]
  {
    var slots := SlotsOf(s, n.channel);
    var id := |s.notes|;
    var p := FirstNone(slots, 0);
    var slots' := if p < |slots| then slots[p := Some(id)] else slots + [Some(id)];
    var r := s.(notes := s.notes + [n], onNotes := s.onNotes[n.channel := slots']);
    assert WellFormed(r) by {
      forall ch | ch in r.onNotes
        ensures SlotsIn(r.onNotes[ch], r.notes, ch) && DistinctSlots(r.onNotes[ch])
      {
        if ch != n.channel {
          assert r.onNotes[ch] == s.onNotes[ch];
        }
      }
    }
    r
  }

  /** `note_on(msg, tick)` (MIDI_to_TJA_balloon.py:202-214): the new note,
      one tick long, is seated, and joins the lane of its slot index. */
  function NoteOnNext(s: Tombstones, channel: nat, pitch: nat, velocity: nat, tick: nat): (r: Tombstones)
    requires WellFormed(s)
    ensures WellFormed(r)
    ensures |r.notes| == |s.notes| + 1 && r.notes[..|s.notes|] == s.notes
    ensures r.notes[|s.notes|] == Note(channel, pitch, velocity, tick, tick + 1)
  {
    var n := Note(channel, pitch, velocity, tick, tick + 1);
    var s1 := Seat(s, n);
    var lane := M.Lane(channel, FirstNone(SlotsOf(s, channel), 0));
    AddToLaneWellFormed(s1, lane, |s.notes|);
    AddToLane(s1, lane, |s.notes|)
  }

  /** `note_off(msg, tick)` (MIDI_to_TJA_balloon.py:216-228). */
  function NoteOffNext(s: Tombstones, channel: nat, pitch: nat, tick: nat): (r: Tombstones)
    requires WellFormed(s)
    ensures WellFormed(r)
  {
    if channel !in s.onNotes then s
    else
      var slots := s.onNotes[channel];
      var k := LastHolding(s.notes, slots, pitch, |slots|);
      if k < 0 then s
      else
        var id := slots[k].value;
        var slots' := if k == |slots| - 1 then slots[..k] else slots[k := None];
        var r := s.(notes := s.notes[id := s.notes[id].(tickEnd := tick)], onNotes := s.onNotes[channel := slots']);
        assert WellFormed(r) by {
          forall ch | ch in r.onNotes
            ensures SlotsIn(r.onNotes[ch], r.notes, ch) && DistinctSlots(r.onNotes[ch])
          {
            if ch != channel {
              assert r.onNotes[ch] == s.onNotes[ch];
            }
          }
        }
        r
  }

  /** The note `note_off` ends, as a set of at most one id. */
  function Freed(s: Tombstones, channel: nat, pitch: nat): set<nat>
  {
    if channel !in s.onNotes then {}
    else
      var slots := s.onNotes[channel];
      var k := LastHolding(s.notes, slots, pitch, |slots|);
      if k < 0 then {} else {slots[k].value}
  }

  /** `note_on` puts the new note in the lowest freed slot of its channel
      (`FirstNone`), or appends a slot when none is freed; no other
      channel's slots change. */
  lemma NoteOnSeats(s: Tombstones, channel: nat, pitch: nat, velocity: nat, tick: nat)
    requires WellFormed(s)
    ensures var r, slots := NoteOnNext(s, channel, pitch, velocity, tick), SlotsOf(s, channel);
      var id, p := |s.notes|, FirstNone(SlotsOf(s, channel), 0);
      && (p < |slots| ==> SlotsOf(r, channel) == slots[p := Some(id)])
      && (p == |slots| ==> SlotsOf(r, channel) == slots + [Some(id)])
      && forall ch | ch != channel :: SlotsOf(r, ch) == SlotsOf(s, ch)
  {
    var s1 := Seat(s, Note(channel, pitch, velocity, tick, tick + 1));
    AddToLaneSlots(s1, M.Lane(channel, FirstNone(SlotsOf(s, channel), 0)), |s.notes|);
  }

  /** Adding a note to a lane leaves every channel's slots as they are. */
  lemma AddToLaneSlots(s: Tombstones, lane: M.Lane, id: nat)
    ensures forall ch :: SlotsOf(AddToLane(s, lane, id), ch) == SlotsOf(s, ch)
  {
  }

  /** `note_on` adds the new note to lane `(channel, polypos)`, `polypos`
      being the slot it took; no other lane changes. */
  lemma NoteOnJoinsLane(s: Tombstones, channel: nat, pitch: nat, velocity: nat, tick: nat)
    requires WellFormed(s)
    ensures var r, lane := NoteOnNext(s, channel, pitch, velocity, tick), M.Lane(channel, FirstNone(SlotsOf(s, channel), 0));
      && lane in r.lanes
      && r.lanes[lane] == (if lane in s.lanes then s.lanes[lane] else []) + [|s.notes|]
      && (forall l | l in s.lanes && l != lane :: l in r.lanes && r.lanes[l] == s.lanes[l])
      && forall l | l in r.lanes :: l in s.lanes || l == lane
  {
    var s1 := Seat(s, Note(channel, pitch, velocity, tick, tick + 1));
    var lane := M.Lane(channel, FirstNone(SlotsOf(s, channel), 0));
    assert NoteOnNext(s, channel, pitch, velocity, tick) == AddToLane(s1, lane, |s.notes|);
    AddToLaneLanes(s1, lane, |s.notes|);
  }

  /** Adding a note to a lane appends it to that lane and to no other. */
  lemma AddToLaneLanes(s: Tombstones, lane: M.Lane, id: nat)
    ensures var r := AddToLane(s, lane, id);
      && lane in r.lanes
      && r.lanes[lane] == (if lane in s.lanes then s.lanes[lane] else []) + [id]
      && (forall l | l in s.lanes && l != lane :: l in r.lanes && r.lanes[l] == s.lanes[l])
      && forall l | l in r.lanes :: l in s.lanes || l == lane
  {
  }

  /** `note_off` frees the highest slot holding a note of its pitch: the
      note ends at `tick`; the slot is popped when it is the last one and
      becomes `None` otherwise; no other slot and no other note changes.
      With no such slot nothing changes. */
  lemma {:induction false} NoteOffFrees(s: Tombstones, channel: nat, pitch: nat, tick: nat)
    requires WellFormed(s)
    ensures var r, slots := NoteOffNext(s, channel, pitch, tick), SlotsOf(s, channel);
      && r.lanes == s.lanes && r.laneOrder == s.laneOrder && |r.notes| == |s.notes|
      && (forall ch | ch != channel :: SlotsOf(r, ch) == SlotsOf(s, ch))
      && ((forall k | 0 <= k < |slots| :: !Holds(s.notes, slots[k], pitch)) ==> r == s)
      && forall k | 0 <= k < |slots| && Holds(s.notes, slots[k], pitch)
                    && (forall j | k < j < |slots| :: !Holds(s.notes, slots[j], pitch)) ::
           var id := slots[k].value;
           && r.notes == s.notes[id := s.notes[id].(tickEnd := tick)]
           && (k == |slots| - 1 ==> SlotsOf(r, channel) == slots[..k])
           && (k < |slots| - 1 ==> SlotsOf(r, channel) == slots[k := None])
           && Some(id) !in SlotsOf(r, channel)
  {
    var slots := SlotsOf(s, channel);
    if channel in s.onNotes {
      var k := LastHolding(s.notes, slots, pitch, |slots|);
      forall k' | 0 <= k' < |slots| && Holds(s.notes, slots[k'], pitch)
                  && (forall j | k' < j < |slots| :: !Holds(s.notes, slots[j], pitch))
        ensures k' == k
      {
      }
      if k >= 0 {
        var r := NoteOffNext(s, channel, pitch, tick);
        var id := slots[k].value;
        forall j | 0 <= j < |SlotsOf(r, channel)|
          ensures SlotsOf(r, channel)[j] != Some(id)
        {
          assert j != k ==> SlotsOf(r, channel)[j] == slots[j];
        }
      }
    }
  }

  /** One raw note event (MIDI_to_TJA_balloon.py:230-234). */
  function Dispatch(s: Tombstones, e: TimedEvent): (r: Tombstones)
    requires WellFormed(s)
    ensures WellFormed(r)
  {
    match e.msg
    case NoteOn(channel, pitch, velocity) =>
      if velocity > 0 then NoteOnNext(s, channel, pitch, velocity, e.tick)
      else NoteOffNext(s, channel, pitch, e.tick)
    case NoteOff(channel, pitch) => NoteOffNext(s, channel, pitch, e.tick)
    case _ => s
  }

  /** The loop over `raw_note_events`. */
  function AssignAll(s: Tombstones, raw: seq<TimedEvent>): (r: Tombstones)
    requires WellFormed(s)
    ensures WellFormed(r)
  {
    if raw == [] then s else Dispatch(AssignAll(s, raw[..|raw| - 1]), raw[|raw| - 1])
  }

  // ---------------------------------------------------------------------
  // Regeneration with the gap clamp

  /** `ticks_per_beat // (192 // 4)`: a 1/192 note. */
  function TicksGap(ticksPerBeat: Pos): (r: nat)
    ensures r * 48 <= ticksPerBeat < (r + 1) * 48
  {
    ticksPerBeat / (192 / 4)
  }

  /** The end the note at position `i` of a lane keeps: clamped to the gap
      before the next note's start, unless it is the lane's last note. */
  function ClampedEnd(notes: seq<Note>, lane: seq<nat>, gap: int, i: nat): (r: int)
    requires M.IdsBelow(lane, |notes|) && i < |lane|
    ensures r <= notes[lane[i]].tickEnd
    ensures i + 1 < |lane| ==> r <= notes[lane[i + 1]].tick - gap
    ensures r == notes[lane[i]].tickEnd || (i + 1 < |lane| && r == notes[lane[i + 1]].tick - gap)
  {
    if i + 1 < |lane| then M.Min(notes[lane[i]].tickEnd, notes[lane[i + 1]].tick - gap)
    else notes[lane[i]].tickEnd
  }

  function OnEvent(n: Note): TimedEvent
  {
    TimedEvent(n.tick, NoteOn(n.channel, n.pitch, n.velocity))
  }

  /** The events of the first `n` notes of a lane after regeneration
      (MIDI_to_TJA_balloon.py:238-248). */
  function Regenerated(notes: seq<Note>, lane: seq<nat>, gap: int, n: nat): seq<TimedEvent>
    requires M.IdsBelow(lane, |notes|) && n <= |lane|
  {
    if n == 0 then []
    else
      var e := notes[lane[n - 1]];
      var end := ClampedEnd(notes, lane, gap, n - 1);
      Regenerated(notes, lane, gap, n - 1)
        + if end > e.tick then [OnEvent(e), TimedEvent(end, NoteOff(e.channel, e.pitch))] else []
  }

  /** The positions among the first `n` of a lane whose note lasts after
      the clamp, in order. */
  function Lasting(notes: seq<Note>, lane: seq<nat>, gap: int, n: nat): (kept: seq<nat>)
    requires M.IdsBelow(lane, |notes|) && n <= |lane|
    ensures forall k | 0 <= k < |kept| :: kept[k] < n && ClampedEnd(notes, lane, gap, kept[k]) > notes[lane[kept[k]]].tick
    ensures forall k, k' | 0 <= k < k' < |kept| :: kept[k] < kept[k']
  {
    if n == 0 then []
    else
      var init := Lasting(notes, lane, gap, n - 1);
      if ClampedEnd(notes, lane, gap, n - 1) > notes[lane[n - 1]].tick then init + [n - 1] else init
  }

  /** Regeneration keeps the notes that last after the clamp, in order,
      each followed at once by a note-off at its clamped end, which is
      after its start and, but for the lane's last note, at least the gap
      before the next note's start. */
  lemma {:induction false} RegeneratedPairs(notes: seq<Note>, lane: seq<nat>, gap: int, n: nat)
    requires M.IdsBelow(lane, |notes|) && n <= |lane|
    ensures var r, kept := Regenerated(notes, lane, gap, n), Lasting(notes, lane, gap, n);
      && |r| == 2 * |kept|
      && forall k | 0 <= k < |kept| ::
           var e, end := notes[lane[kept[k]]], ClampedEnd(notes, lane, gap, kept[k]);
           && r[2 * k] == OnEvent(e)
           && r[2 * k + 1] == TimedEvent(end, NoteOff(e.channel, e.pitch))
           && e.tick < end
           && (kept[k] + 1 < |lane| ==> end + gap <= notes[lane[kept[k] + 1]].tick)
  {
    if n > 0 {
      RegeneratedPairs(notes, lane, gap, n - 1);
      var r0, kept0 := Regenerated(notes, lane, gap, n - 1), Lasting(notes, lane, gap, n - 1);
      var r, kept := Regenerated(notes, lane, gap, n), Lasting(notes, lane, gap, n);
      forall k | 0 <= k < |kept0|
        ensures r[2 * k] == r0[2 * k] && r[2 * k + 1] == r0[2 * k + 1] && kept[k] == kept0[k]
      {
      }
    }
  }

  /** A note position lasts exactly when its clamped end is after its
      start. */
  lemma {:induction false} LastingFilters(notes: seq<Note>, lane: seq<nat>, gap: int, n: nat)
    requires M.IdsBelow(lane, |notes|) && n <= |lane|
    ensures forall i | 0 <= i < n :: i in Lasting(notes, lane, gap, n) <==> ClampedEnd(notes, lane, gap, i) > notes[lane[i]].tick
  {
    if n > 0 {
      LastingFilters(notes, lane, gap, n - 1);
      var init := Lasting(notes, lane, gap, n - 1);
      forall i | 0 <= i < n
        ensures i in Lasting(notes, lane, gap, n) <==> ClampedEnd(notes, lane, gap, i) > notes[lane[i]].tick
      {
        if i == n - 1 {
          assert i !in init;
        }
      }
    }
  }

  /** Seating a note that `note_off` has not ended keeps every occupied
      slot open. */
  lemma OpenSlotsAfterSeat(before: map<nat, Slots>, after: map<nat, Slots>, channel: nat, id: nat, closed: set<nat>)
    requires id !in closed
    requires forall ch, k | ch in before && 0 <= k < |before[ch]| && before[ch][k].Some? :: before[ch][k].value !in closed
    requires channel in after && after == before[channel := after[channel]]
    requires forall k | 0 <= k < |after[channel]| && after[channel][k].Some? && after[channel][k] != Some(id) ::
      channel in before && k < |before[channel]| && after[channel][k] == before[channel][k]
    ensures forall ch, k | ch in after && 0 <= k < |after[ch]| && after[ch][k].Some? :: after[ch][k].value !in closed
  {
    forall ch, k | ch in after && 0 <= k < |after[ch]| && after[ch][k].Some?
      ensures after[ch][k].value !in closed
    {
      if ch != channel {
        assert after[ch] == before[ch];
      }
    }
  }

  // ---------------------------------------------------------------------
  // Lane order

  /** No note starts after `t`, and notes start in the order they are
      made. */
  ghost predicate NotesInOrder(notes: seq<Note>, t: nat)
  {
    && (forall k | 0 <= k < |notes| :: notes[k].tick <= t)
    && (forall a, b | 0 <= a < b < |notes| :: notes[a].tick <= notes[b].tick)
  }

  /** Each lane lists its notes in the order they were made. */
  ghost predicate LanesAscending(lanes: map<M.Lane, seq<nat>>)
  {
    forall l, i, j | l in lanes && 0 <= i < j < |lanes[l]| :: lanes[l][i] < lanes[l][j]
  }

  /** What the lane pass keeps of the order of its notes once the raw
      events up to tick `t` are dispatched. */
  ghost predicate LanesInOrder(s: Tombstones, t: nat)
  {
    WellFormed(s) && NotesInOrder(s.notes, t) && LanesAscending(s.lanes)
  }

  /** `note_on` at `tick`, at or after every note so far, adds its note
      after all others, at the end of one lane. */
  lemma NoteOnInOrder(s: Tombstones, channel: nat, pitch: nat, velocity: nat, tick: nat, t: nat)
    requires LanesInOrder(s, t) && t <= tick
    ensures LanesInOrder(NoteOnNext(s, channel, pitch, velocity, tick), tick)
  {
    var r := NoteOnNext(s, channel, pitch, velocity, tick);
    NoteOnJoinsLane(s, channel, pitch, velocity, tick);
    NotesInOrderSnoc(s.notes, r.notes, t, tick);
    LanesAscendingSnoc(s.lanes, r.lanes, M.Lane(channel, FirstNone(SlotsOf(s, channel), 0)), |s.notes|);
  }

  /** One more note, starting at a tick at or after every other, keeps
      the notes in order. */
  lemma NotesInOrderSnoc(a: seq<Note>, b: seq<Note>, t: nat, t': nat)
    requires NotesInOrder(a, t) && t <= t'
    requires |b| == |a| + 1 && b[..|a|] == a && b[|a|].tick == t'
    ensures NotesInOrder(b, t')
  {
    assert forall x | 0 <= x < |a| :: b[x] == b[..|a|][x];
  }

  /** Appending a note newer than all others to one lane keeps every lane
      ascending. */
  lemma LanesAscendingSnoc(lanes: map<M.Lane, seq<nat>>, lanes': map<M.Lane, seq<nat>>, lane: M.Lane, id: nat)
    requires LanesAscending(lanes) && forall l | l in lanes :: M.IdsBelow(lanes[l], id)
    requires lane in lanes' && lanes'[lane] == (if lane in lanes then lanes[lane] else []) + [id]
    requires forall l | l in lanes && l != lane :: l in lanes' && lanes'[l] == lanes[l]
    requires forall l | l in lanes' :: l in lanes || l == lane
    ensures LanesAscending(lanes')
  {
  }

  /** `note_off` moves no start and no lane. */
  lemma NoteOffInOrder(s: Tombstones, channel: nat, pitch: nat, tick: nat, t: nat)
    requires LanesInOrder(s, t) && t <= tick
    ensures LanesInOrder(NoteOffNext(s, channel, pitch, tick), tick)
  {
    var r := NoteOffNext(s, channel, pitch, tick);
    assert r.lanes == s.lanes && |r.notes| == |s.notes|;
    assert forall x | 0 <= x < |s.notes| :: r.notes[x].tick == s.notes[x].tick;
  }

  /** One raw event at or after every note so far keeps the lanes in
      order. */
  lemma DispatchInOrder(s: Tombstones, e: TimedEvent, t: nat)
    requires LanesInOrder(s, t) && t <= e.tick
    ensures LanesInOrder(Dispatch(s, e), e.tick)
  {
    var r := Dispatch(s, e);
    match e.msg
    case NoteOn(channel, pitch, velocity) =>
      if velocity > 0 {
        NoteOnInOrder(s, channel, pitch, velocity, e.tick, t);
        assert r == NoteOnNext(s, channel, pitch, velocity, e.tick);
      } else {
        NoteOffInOrder(s, channel, pitch, e.tick, t);
        assert r == NoteOffNext(s, channel, pitch, e.tick);
      }
    case NoteOff(channel, pitch) =>
      NoteOffInOrder(s, channel, pitch, e.tick, t);
      assert r == NoteOffNext(s, channel, pitch, e.tick);
    case TimeSignature(_, _) =>
      assert r == s;
    case SetTempo(_) =>
      assert r == s;
  }

  /** The lane pass over raw events in tick order keeps its lanes in
      order. */
  lemma {:induction false} AssignAllInOrder(raw: seq<TimedEvent>)
    requires NonDecreasing(raw)
    ensures LanesInOrder(AssignAll(Tombstones([], map[], map[], []), raw), if raw == [] then 0 else raw[|raw| - 1].tick)
  {
    if raw != [] {
      var init := raw[..|raw| - 1];
      AssignAllInOrder(init);
      DispatchInOrder(AssignAll(Tombstones([], map[], map[], []), init), raw[|raw| - 1],
                      if init == [] then 0 else init[|init| - 1].tick);
    }
  }

  /** The events of the first `n` notes of a lane whose notes start in
      order are note events at or before the start of note `n`: the clamp
      ends each kept note at least the gap before the next note starts. */
  lemma {:induction false} RegeneratedBefore(notes: seq<Note>, lane: seq<nat>, gap: nat, n: nat)
    requires M.IdsBelow(lane, |notes|) && n < |lane|
    requires forall i, j | 0 <= i < j < |lane| :: notes[lane[i]].tick <= notes[lane[j]].tick
    ensures forall x | x in Regenerated(notes, lane, gap, n) :: x.tick <= notes[lane[n]].tick && IsNoteEvent(x)
  {
    if n > 0 {
      RegeneratedBefore(notes, lane, gap, n - 1);
    }
  }

  /** A lane whose notes start in order regenerates into note events in
      tick order. */
  /** The pair a kept note becomes starts at the note and is in tick order. */
  lemma PairAfter(e: Note, end: int)
    ensures var b: seq<TimedEvent> := if end > e.tick then [OnEvent(e), TimedEvent(end, NoteOff(e.channel, e.pitch))] else [];
      NonDecreasing(b) && forall y | y in b :: e.tick <= y.tick && IsNoteEvent(y)
  {
  }

  /** Tick-ordered note events followed by tick-ordered note events that
      start no earlier are tick-ordered note events. */
  lemma SortedNoteEventsAppend(a: seq<TimedEvent>, b: seq<TimedEvent>, m: int)
    requires NonDecreasing(a) && NonDecreasing(b)
    requires forall x | x in a :: x.tick <= m && IsNoteEvent(x)
    requires forall y | y in b :: m <= y.tick && IsNoteEvent(y)
    ensures NonDecreasing(a + b) && forall x | x in a + b :: IsNoteEvent(x)
  {
    NonDecreasingAppend(a, b, m);
  }

  lemma {:induction false} RegeneratedNonDecreasing(notes: seq<Note>, lane: seq<nat>, gap: nat, n: nat)
    requires M.IdsBelow(lane, |notes|) && n <= |lane|
    requires forall i, j | 0 <= i < j < |lane| :: notes[lane[i]].tick <= notes[lane[j]].tick
    ensures NonDecreasing(Regenerated(notes, lane, gap, n))
    ensures forall x | x in Regenerated(notes, lane, gap, n) :: IsNoteEvent(x)
  {
    if n > 0 {
      RegeneratedNonDecreasing(notes, lane, gap, n - 1);
      RegeneratedBefore(notes, lane, gap, n - 1);
      var e := notes[lane[n - 1]];
      var end := ClampedEnd(notes, lane, gap, n - 1);
      var a: seq<TimedEvent> := Regenerated(notes, lane, gap, n - 1);
      var b: seq<TimedEvent> := if end > e.tick then [OnEvent(e), TimedEvent(end, NoteOff(e.channel, e.pitch))] else [];
      assert Regenerated(notes, lane, gap, n) == a + b;
      PairAfter(e, end);
      SortedNoteEventsAppend(a, b, e.tick);
    }
  }

  /** On raw note events in tick order, every chart the balloon script
      converts holds its events in merge-key order. */
  lemma BalloonChartsSorted(ticksPerBeat: Pos, raw: seq<TimedEvent>)
    requires NonDecreasing(raw)
    ensures var charts := BalloonCharts(AssignAll(Tombstones([], map[], map[], []), raw), TicksGap(ticksPerBeat));
      forall k | 0 <= k < |charts| :: Merge.KeySorted(charts[k].1)
  {
    var p := AssignAll(Tombstones([], map[], map[], []), raw);
    var gap := TicksGap(ticksPerBeat);
    AssignAllInOrder(raw);
    forall k | 0 <= k < |p.laneOrder|
      ensures Merge.KeySorted(Regenerated(p.notes, p.lanes[p.laneOrder[k]], gap, |p.lanes[p.laneOrder[k]]|))
    {
      var ids := p.lanes[p.laneOrder[k]];
      assert forall i, j | 0 <= i < j < |ids| :: p.notes[ids[i]].tick <= p.notes[ids[j]].tick by {
        forall i, j | 0 <= i < j < |ids|
          ensures p.notes[ids[i]].tick <= p.notes[ids[j]].tick
        {
          assert ids[i] < ids[j];
        }
      }
      var r := Regenerated(p.notes, ids, gap, |ids|);
      RegeneratedNonDecreasing(p.notes, ids, gap, |ids|);
      forall x | 0 <= x < |r|
        ensures Merge.Rank(r[x]) == 1
      {
        assert r[x] in r;
      }
      Merge.NonDecreasingKeySorted(r, 1);
    }
  }

  // ---------------------------------------------------------------------
  // The closures' state, as an object

  /** The state `note_on` and `note_off` share.  The ghost `closed` holds
      the notes `note_off` has ended. */
  class SlotAssigner {
    var notes: seq<Note>
    var onNotes: map<nat, Slots>
    var lanes: map<M.Lane, seq<nat>>
    var laneOrder: seq<M.Lane>
    ghost var closed: set<nat>

    function Value(): Tombstones
      reads this
    {
      Tombstones(notes, onNotes, lanes, laneOrder)
    }

    /** The lane pass is well formed, and every occupied slot holds a note
        that `note_off` has not ended. */
    ghost predicate Valid()
      reads this
    {
      && WellFormed(Value())
      && (forall id | id in closed :: id < |notes|)
      && forall ch, k | ch in onNotes && 0 <= k < |onNotes[ch]| && onNotes[ch][k].Some? :: onNotes[ch][k].value !in closed
    }

    constructor ()
      ensures Value() == Tombstones([], map[], map[], []) && closed == {} && Valid()
    {
      notes, onNotes, lanes, laneOrder := [], map[], map[], [];
      closed := {};
    }

    /** The slot loop of `note_on` (MIDI_to_TJA_balloon.py:207-213). */
    static method FindNone(slots: Slots) returns (i: nat)
      ensures i == FirstNone(slots, 0)
    {
      i := 0;
      while i < |slots|
        invariant 0 <= i <= |slots|
        invariant FirstNone(slots, 0) == FirstNone(slots, i)
      {
        if slots[i] == None {
          return;
        }
        i := i + 1;
      }
    }

    /** The slot step of `note_on` (MIDI_to_TJA_balloon.py:203-213). */
    method SeatNote(n: Note) returns (polypos: nat)
      requires Valid()
      modifies this
      ensures Value() == Seat(old(Value()), n)
      ensures polypos == FirstNone(old(SlotsOf(Value(), n.channel)), 0)
      ensures closed == old(closed) && Valid()
    {
      var slots := if n.channel in onNotes then onNotes[n.channel] else [];
      var id := |notes|;
      polypos := FindNone(slots);
      notes := notes + [n];
      if polypos < |slots| {
        // a tombstone takes the new note
        onNotes := onNotes[n.channel := slots[polypos := Some(id)]];
      } else {
        onNotes := onNotes[n.channel := slots + [Some(id)]];
      }
      OpenSlotsAfterSeat(old(onNotes), onNotes, n.channel, id, closed);
    }

    /** `note_on(msg, tick)` (MIDI_to_TJA_balloon.py:202-214). */
    method NoteOn(channel: nat, pitch: nat, velocity: nat, tick: nat)
      requires Valid()
      modifies this
      ensures Value() == NoteOnNext(old(Value()), channel, pitch, velocity, tick)
      ensures closed == old(closed) && Valid()
    {
      var id := |notes|;
      var polypos := SeatNote(Note(channel, pitch, velocity, tick, tick + 1));
      var lane := M.Lane(channel, polypos);
      AddToLaneWellFormed(Value(), lane, id);
      if lane in lanes {
        lanes := lanes[lane := lanes[lane] + [id]];
      } else {
        lanes := lanes[lane := [id]];
        laneOrder := laneOrder + [lane];
      }
    }

    /** The backward scan of `note_off` (MIDI_to_TJA_balloon.py:219-221). */
    method FindHolding(slots: Slots, pitch: nat) returns (i: int)
      ensures i == LastHolding(notes, slots, pitch, |slots|)
    {
      i := |slots| - 1;
      while i >= 0
        invariant -1 <= i < |slots|
        invariant LastHolding(notes, slots, pitch, |slots|) == LastHolding(notes, slots, pitch, i + 1)
      {
        var e := slots[i];
        if e.Some? && e.value < |notes| && notes[e.value].pitch == pitch {
          return;
        }
        i := i - 1;
      }
    }

    /** `note_off(msg, tick)` (MIDI_to_TJA_balloon.py:216-228); the note
        it ends joins `closed`. */
    method NoteOff(channel: nat, pitch: nat, tick: nat)
      requires Valid()
      modifies this
      ensures Value() == NoteOffNext(old(Value()), channel, pitch, tick)
      ensures closed == old(closed) + Freed(old(Value()), channel, pitch)
      ensures Valid()
    {
      NoteOffFrees(Value(), channel, pitch, tick);
      if channel !in onNotes {
        return;
      }
      var slots := onNotes[channel];
      var i := FindHolding(slots, pitch);
      if i >= 0 {
        var id := slots[i].value;
        notes := notes[id := notes[id].(tickEnd := tick)];
        if i == |slots| - 1 {
          onNotes := onNotes[channel := slots[..i]];  // the last slot is popped
        } else {
          onNotes := onNotes[channel := slots[i := None]];  // an inner slot becomes a tombstone
        }
        closed := closed + {id};
        forall ch, j | ch in onNotes && 0 <= j < |onNotes[ch]| && onNotes[ch][j].Some?
          ensures onNotes[ch][j].value !in closed
        {
          if ch == channel {
            assert j != i && onNotes[ch][j] == slots[j];
            assert slots[j].value !in old(closed);
            assert DistinctSlots(slots);
            assert slots[j].value != id;
          } else {
            assert onNotes[ch] == old(onNotes)[ch];
          }
        }
      }
    }

    /** The loop over `raw_note_events` (MIDI_to_TJA_balloon.py:230-234). */
    method AssignLanes(raw: seq<TimedEvent>)
      requires Valid()
      modifies this
      ensures Value() == AssignAll(old(Value()), raw) && Valid()
    {
      ghost var s := Value();
      for i := 0 to |raw|
        invariant Valid() && Value() == AssignAll(s, raw[..i])
      {
        assert raw[..i + 1][..i] == raw[..i];
        DispatchEvent(raw[i]);
      }
      assert raw[..|raw|] == raw;
    }

    /** One event of the loop over `raw_note_events`: a note-on with a
        velocity is seated, a note-off or a silent note-on frees its slot,
        anything else is skipped. */
    method DispatchEvent(e: TimedEvent)
      requires Valid()
      modifies this
      ensures Value() == Dispatch(old(Value()), e) && Valid()
    {
      match e.msg {
        case NoteOn(channel, pitch, velocity) =>
          if velocity > 0 {
            NoteOn(channel, pitch, velocity, e.tick);
          } else {
            NoteOff(channel, pitch, e.tick);
          }
        case NoteOff(channel, pitch) =>
          NoteOff(channel, pitch, e.tick);
        case TimeSignature(_, _) =>
        case SetTempo(_) =>
      }
    }

    /** One lane's regeneration loop. */
    method RegenerateLane(events: seq<nat>, gap: int) returns (newEvents: seq<TimedEvent>)
      requires M.IdsBelow(events, |notes|)
      ensures newEvents == Regenerated(notes, events, gap, |events|)
    {
      newEvents := [];
      for i := 0 to |events|
        invariant newEvents == Regenerated(notes, events, gap, i)
      {
        var e := notes[events[i]];
        var end := e.tickEnd;
        if i + 1 < |events| {
          end := M.Min(end, notes[events[i + 1]].tick - gap);
        }
        if end > e.tick {
          newEvents := newEvents + [OnEvent(e), TimedEvent(end, Msg.NoteOff(e.channel, e.pitch))];
        }
      }
    }

    /** Every lane regenerated, in the order the lanes were created; no
        lane at all gives no chart. */
    method Charts(gap: int) returns (charts: seq<(M.Lane, seq<TimedEvent>)>)
      requires Valid()
      ensures |charts| == |laneOrder|
      ensures forall k | 0 <= k < |charts| ::
        && charts[k].0 == laneOrder[k]
        && charts[k].1 == Regenerated(notes, lanes[laneOrder[k]], gap, |lanes[laneOrder[k]]|)
    {
      charts := [];
      for k := 0 to |laneOrder|
        invariant |charts| == k
        invariant forall j | 0 <= j < k ::
          && charts[j].0 == laneOrder[j]
          && charts[j].1 == Regenerated(notes, lanes[laneOrder[j]], gap, |lanes[laneOrder[j]]|)
      {
        var lane := laneOrder[k];
        assert lane in lanes;
        var chart := RegenerateLane(lanes[lane], gap);
        charts := charts + [(lane, chart)];
      }
    }
  }

  /** The charts MIDI_to_TJA_balloon.py's `main` converts after the lane
      pass: every lane in the order it was created, with its clamped
      regenerated events; no lane gives no chart. */
  function BalloonCharts(s: Tombstones, gap: int): seq<(M.Lane, seq<TimedEvent>)>
    requires WellFormed(s)
  {
    seq(|s.laneOrder|, k requires 0 <= k < |s.laneOrder| =>
      (s.laneOrder[k], Regenerated(s.notes, s.lanes[s.laneOrder[k]], gap, |s.lanes[s.laneOrder[k]]|)))
  }

  /** The lanes of MIDI_to_TJA_balloon.py's `main` (lines 197-248): one
      regenerated chart per lane, in the order the lanes were created. */
  method LaneCharts(ticksPerBeat: Pos, raw: seq<TimedEvent>) returns (charts: seq<(M.Lane, seq<TimedEvent>)>)
    ensures var p := AssignAll(Tombstones([], map[], map[], []), raw);
      && charts == BalloonCharts(p, TicksGap(ticksPerBeat))
      && |charts| == |p.laneOrder|
      && forall k | 0 <= k < |charts| ::
           && charts[k].0 == p.laneOrder[k]
           && charts[k].1 == Regenerated(p.notes, p.lanes[p.laneOrder[k]], TicksGap(ticksPerBeat), |p.lanes[p.laneOrder[k]]|)
  {
    var assigner := new SlotAssigner();
    assigner.AssignLanes(raw);
    charts := assigner.Charts(TicksGap(ticksPerBeat));
  }

  /** `main` of MIDI_to_TJA_balloon.py after the MIDI file is read: the
      charts of `LaneCharts`, each converted with the balloon symbol from
      the same state seeded with the tick-0 tempo (lines 250-291); the
      ghost `flushes` holds each chart's `scan_measure` calls.  On raw note
      events in tick order, as `main` sorts them, every chart's events are
      in merge-key order. */
  method Convert(ticksPerBeat: Pos, timing: seq<TimedEvent>, raw: seq<TimedEvent>)
    returns (tempo: nat, texts: seq<M.ChartText>, ghost flushes: seq<seq<Flush>>)
    ensures tempo == M.LeadingTempo(timing, DefaultUsecPerBeat)
    ensures var p := AssignAll(Tombstones([], map[], map[], []), raw);
      var charts := BalloonCharts(p, TicksGap(ticksPerBeat));
      && |texts| == |p.laneOrder| && |flushes| == |p.laneOrder|
      && (forall k | 0 <= k < |texts| :: texts[k].lane == p.laneOrder[k])
      && forall k | 0 <= k < |texts| ::
           M.Converted(InitialTiming(ticksPerBeat).(usecPerBeat := tempo), timing, charts[k].1, BalloonSymbol, texts[k], flushes[k])
    ensures var charts := BalloonCharts(AssignAll(Tombstones([], map[], map[], []), raw), TicksGap(ticksPerBeat));
      NonDecreasing(raw) ==> forall k | 0 <= k < |charts| :: Merge.KeySorted(charts[k].1)
    ensures var charts := BalloonCharts(AssignAll(Tombstones([], map[], map[], []), raw), TicksGap(ticksPerBeat));
      NonDecreasing(raw) && Merge.KeySorted(timing) ==> forall k | 0 <= k < |texts| ::
        && FlushesEndBefore(Merge.Merged(timing, charts[k].1), flushes[k])
        && CellCount(texts[k].body) == GridCells(Merge.Merged(timing, charts[k].1), flushes[k])
        && RecordsSound(texts[k].balloons)
    ensures forall k | 0 <= k < |texts| :: MeasureEnds(texts[k].body) >= 1
  {
    var charts := LaneCharts(ticksPerBeat, raw);
    var state := new ChartState(ticksPerBeat);
    M.SeedTempo(state, timing);
    tempo := state.usecPerBeat;
    texts, flushes := M.ConvertAll(state, timing, charts, BalloonSymbol);
    if NonDecreasing(raw) {
      BalloonChartsSorted(ticksPerBeat, raw);
    }
  }
}
