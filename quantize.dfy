/** The arithmetic of the measure quantizer, common to `scan_measure`
    (midi_to_tja.py, MIDI_to_TJA_balloon.py) and `emit_measure`
    (MIDI_Timing_to_TJA.py): the offsets of a measure's events, the in-place
    removal of repeated offsets, and the gcd that becomes the grid unit. */
module Quantize {
  import opened Events

  // ---------------------------------------------------------------------
  // Divisibility

  /** `d` is a positive common divisor of every element of `s`. */
  predicate DividesAll(d: int, s: seq<nat>)
  {
    d > 0 && forall x | x in s :: x % d == 0
  }

  lemma {:induction false} MulGrows(d: int, m: int)
    requires d > 0 && m >= 1
    ensures d * m >= d
    decreases m
  {
    if m > 1 {
      MulGrows(d, m - 1);
      assert d * m == d * (m - 1) + d;
    }
  }

  /** The only multiple of `d` in `[0, d)` is 0. */
  lemma SmallMultiple(d: int, m: int, r: int)
    requires d > 0 && 0 <= r < d && d * m == r
    ensures m == 0
  {
    if m >= 1 { MulGrows(d, m); }
    if m <= -1 { MulGrows(d, -m); }
  }

  lemma MultipleMod(d: int, k: int)
    requires d > 0
    ensures (d * k) % d == 0
  {
    var n := d * k;
    var q, r := n / d, n % d;
    assert n == d * q + r && 0 <= r < d;
    assert d * (k - q) == r;
    SmallMultiple(d, k - q, r);
  }

  lemma DividesLinear(d: int, x: int, y: int, c: int)
    requires d > 0 && x % d == 0 && y % d == 0
    ensures (c * x + y) % d == 0
  {
    var qx, qy := x / d, y / d;
    assert x == d * qx;
    assert y == d * qy;
    assert c * x + y == d * (c * qx + qy);
    MultipleMod(d, c * qx + qy);
  }

  // ---------------------------------------------------------------------
  // gcd, as Python's math.gcd

  /** Euclid's algorithm on non-negative integers. */
  function Gcd(a: nat, b: nat): nat
    decreases b
  {
    if b == 0 then a else Gcd(b, a % b)
  }

  /** `gcd(*s)`: the left fold of `Gcd`, 0 for no arguments. */
  function GcdOf(s: seq<nat>): nat
  {
    if s == [] then 0 else Gcd(GcdOf(s[..|s| - 1]), s[|s| - 1])
  }

  lemma {:induction false} GcdDivides(a: nat, b: nat)
    requires a > 0 || b > 0
    ensures Gcd(a, b) > 0 && a % Gcd(a, b) == 0 && b % Gcd(a, b) == 0
    decreases b
  {
    if b == 0 {
      MultipleMod(a, 1);
      MultipleMod(a, 0);
    } else {
      GcdDivides(b, a % b);
      var g := Gcd(b, a % b);
      assert a == (a / b) * b + a % b;
      DividesLinear(g, b, a % b, a / b);
    }
  }

  lemma {:induction false} GcdGreatest(a: nat, b: nat, d: int)
    requires d > 0 && a % d == 0 && b % d == 0
    ensures Gcd(a, b) % d == 0
    decreases b
  {
    if b != 0 {
      assert a % b == (-(a / b)) * b + a;
      DividesLinear(d, b, a, -(a / b));
      GcdGreatest(b, a % b, d);
    }
  }

  /** The fold divides every argument, and is 0 only when every argument is. */
  lemma {:induction false} GcdOfDivides(s: seq<nat>)
    ensures GcdOf(s) == 0 ==> forall x | x in s :: x == 0
    ensures GcdOf(s) > 0 ==> DividesAll(GcdOf(s), s)
  {
    if s != [] {
      var init, last := s[..|s| - 1], s[|s| - 1];
      assert s == init + [last];
      GcdOfDivides(init);
      var g0 := GcdOf(init);
      var g := GcdOf(s);
      if g0 > 0 || last > 0 {
        GcdDivides(g0, last);
        forall x | x in s
          ensures x % g == 0
        {
          if x == last {
          } else if g0 == 0 {
            MultipleMod(g, 0);
          } else {
            assert x in init;
            assert x == (x / g0) * g0 + 0;
            MultipleMod(g, 0);
            DividesLinear(g, g0, 0, x / g0);
          }
        }
      }
    }
  }

  /** Every positive common divisor of the arguments divides the fold. */
  lemma {:induction false} GcdOfGreatest(s: seq<nat>, d: int)
    requires DividesAll(d, s)
    ensures GcdOf(s) % d == 0
  {
    if s == [] {
      MultipleMod(d, 0);
    } else {
      var init := s[..|s| - 1];
      assert forall x | x in init :: x in s;
      GcdOfGreatest(init, d);
      assert s[|s| - 1] in s;
      GcdGreatest(GcdOf(init), s[|s| - 1], d);
    }
  }

  // ---------------------------------------------------------------------
  // Removal of repeated offsets

  /** `s` with every run of equal adjacent elements collapsed to one
      element; the reference definition of the in-place loop below. */
  function Compress<T(==)>(s: seq<T>): (r: seq<T>)
    ensures |r| <= |s|
    ensures |s| > 0 ==> |r| > 0 && r[0] == s[0] && r[|r| - 1] == s[|s| - 1]
  {
    if |s| <= 1 then s
    else
      var c := Compress(s[..|s| - 1]);
      if s[|s| - 1] == c[|c| - 1] then c else c + [s[|s| - 1]]
  }

  lemma {:induction false} CompressNoRepeats<T>(s: seq<T>)
    ensures forall k :: 0 <= k < |Compress(s)| - 1 ==> Compress(s)[k] != Compress(s)[k + 1]
  {
    if |s| > 1 {
      CompressNoRepeats(s[..|s| - 1]);
    }
  }

  lemma {:induction false} CompressSameElements<T>(s: seq<T>)
    ensures forall x :: x in Compress(s) <==> x in s
  {
    if |s| > 1 {
      var init := s[..|s| - 1];
      CompressSameElements(init);
      assert s == init + [s[|s| - 1]];
    }
  }

  /** `Compress` of a prefix one element longer. */
  lemma CompressNext<T>(s: seq<T>, k: nat)
    requires 0 < k < |s|
    ensures var c := Compress(s[..k]);
      Compress(s[..k + 1]) == if s[k] == c[|c| - 1] then c else c + [s[k]]
  {
    assert s[..k + 1][..k] == s[..k];
  }

  /** Writing the element after the kept prefix `buf[..l + 1]` extends it
      and leaves the unread elements after `k` alone. */
  lemma WriteNext<T>(buf: seq<T>, l: nat, k: nat, x: T)
    requires l < k < |buf|
    ensures buf[l + 1 := x][..l + 2] == buf[..l + 1] + [x]
    ensures buf[l + 1 := x][k + 1..] == buf[k + 1..]
    ensures buf[k + 1..] == buf[k..][1..]
  {
  }

  /** The de-duplication of `tick_rels` (midi_to_tja.py:115-121), done in
      place with a read index `k` and a write index `l`. */
  method RemoveAdjacentDuplicates<T(==)>(rels: seq<T>) returns (r: seq<T>)
    ensures r == Compress(rels)
  {
    var buf := rels;
    var l := 0;
    var k := 1;
    while k < |buf|
      invariant |buf| == |rels|
      invariant |rels| > 0 ==> 1 <= k <= |rels| && l < k
      invariant |rels| > 0 ==> buf[..l + 1] == Compress(rels[..k])
      invariant |rels| > 0 ==> buf[k..] == rels[k..]
    {
      ghost var c := Compress(rels[..k]);
      CompressNext(rels, k);
      assert buf[k] == rels[k] && buf[l] == c[|c| - 1];
      WriteNext(buf, l, k, buf[k]);
      if buf[k] != buf[l] {
        l := l + 1;
        buf := buf[l := buf[k]];
      }
      k := k + 1;
    }
    if |rels| == 0 {
      r := buf;
    } else {
      assert rels[..k] == rels;
      r := buf[..l + 1];
    }
  }

  // ---------------------------------------------------------------------
  // The grid of one measure

  /** `tick - begin` for every event of `events[lo..hi]` later than `begin`,
      in event order (the list comprehension building `tick_rels`). */
  function Offsets(events: seq<TimedEvent>, lo: nat, hi: nat, begin: int): (offs: seq<nat>)
    requires lo <= hi <= |events|
    ensures forall x | x in offs :: x > 0
    ensures forall i | lo <= i < hi && events[i].tick > begin :: events[i].tick - begin in offs
    decreases hi - lo
  {
    if lo == hi then []
    else
      var rest := Offsets(events, lo + 1, hi, begin);
      if events[lo].tick > begin then [events[lo].tick - begin] + rest else rest
  }

  /** `tick_rels`: the offsets followed by the measure length. */
  function TickRels(events: seq<TimedEvent>, lo: nat, hi: nat, begin: int, length: Pos): seq<nat>
    requires lo <= hi <= |events|
  {
    Offsets(events, lo, hi, begin) + [length]
  }

  /** `tick_gcd`: the gcd of the de-duplicated `tick_rels`.  It is the
      coarsest grid on which the measure end and every event of the range
      fall on a cell boundary. */
  function MeasureGcd(events: seq<TimedEvent>, lo: nat, hi: nat, begin: int, length: Pos): (g: Pos)
    requires lo <= hi <= |events|
    ensures DividesAll(g, TickRels(events, lo, hi, begin, length))
    ensures length % g == 0
    ensures forall i | lo <= i < hi && events[i].tick > begin :: (events[i].tick - begin) % g == 0
    ensures forall d :: DividesAll(d, TickRels(events, lo, hi, begin, length)) ==> g % d == 0
  {
    var rels := TickRels(events, lo, hi, begin, length);
    CompressSameElements(rels);
    GcdOfDivides(Compress(rels));
    assert length in Compress(rels);
    forall i | lo <= i < hi && events[i].tick > begin
      ensures events[i].tick - begin in Compress(rels)
    {
      assert events[i].tick - begin in rels;
    }
    forall d | DividesAll(d, rels)
      ensures GcdOf(Compress(rels)) % d == 0
    {
      GcdOfGreatest(Compress(rels), d);
    }
    GcdOf(Compress(rels))
  }

  /** The grid unit of `scan_measure` (midi_to_tja.py:108-123): build
      `tick_rels`, drop repeated offsets in place, take the gcd. */
  method GridUnit(events: seq<TimedEvent>, lo: nat, hi: nat, begin: int, length: Pos) returns (g: Pos)
    requires lo <= hi <= |events|
    ensures g == MeasureGcd(events, lo, hi, begin, length)
  {
    var rels: seq<nat> := Offsets(events, lo, hi, begin) + [length];
    assert rels == TickRels(events, lo, hi, begin, length);
    rels := RemoveAdjacentDuplicates(rels);
    assert GcdOf(rels) == MeasureGcd(events, lo, hi, begin, length);
    g := GcdOf(rels);
  }

  /** Every event of the range lies in `[begin, begin + length)`. */
  predicate InMeasure(events: seq<TimedEvent>, lo: nat, hi: nat, begin: int, length: int)
    requires lo <= hi <= |events|
  {
    forall i | lo <= i < hi :: begin <= events[i].tick < begin + length
  }

  /** A tick before the end of a measure of `n` cells of `g` ticks from
      `begin` falls on a cell before the last boundary. */
  lemma CellBeforeEnd(tick: int, begin: int, end: int, n: int, g: int)
    requires g > 0 && end == begin + n * g && tick < end
    ensures (tick - begin) / g < n
  {
    CellIndexBound(tick - begin, n, g);
  }

  /** A tick inside the measure falls on one of its cells. */
  lemma CellInMeasure(tick: int, begin: int, end: int, n: int, g: int)
    requires g > 0 && end == begin + n * g && begin <= tick < end
    ensures 0 <= (tick - begin) / g < n
  {
    CellIndexBound(tick - begin, n, g);
  }

  lemma CellIndexBound(rel: int, n: int, g: int)
    requires g > 0 && rel < n * g
    ensures rel / g < n
  {
    var q := rel / g;
    assert g * q <= rel;
    assert g * (q - n) < 0;
    if q - n >= 1 {
      MulGrows(g, q - n);
    }
  }
}
