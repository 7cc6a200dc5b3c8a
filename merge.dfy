/** `merge_sorted` (midi_to_tja.py:32-48, the same text as
    MIDI_to_TJA_balloon.py:14-30), called with the key
    `(tick_abs, 1 if note event else 0)`: timing events before notes at the
    same tick. */
module Merge {
  import opened Events

  /** Second component of the merge key. */
  function Rank(e: TimedEvent): nat
  {
    if IsNoteEvent(e) then 1 else 0
  }

  /** Python's `<` on the key tuples. */
  predicate KeyLess(x: TimedEvent, y: TimedEvent)
  {
    x.tick < y.tick || (x.tick == y.tick && Rank(x) < Rank(y))
  }

  predicate KeySorted(s: seq<TimedEvent>)
  {
    forall i, j :: 0 <= i < j < |s| ==> !KeyLess(s[j], s[i])
  }

  /** Reference definition of the two-pointer merge: take from `a` only on a
      strictly smaller key, so that on equal keys `b` goes first. */
  function Merged(a: seq<TimedEvent>, b: seq<TimedEvent>): seq<TimedEvent>
    decreases |a| + |b|
  {
    if a == [] then b
    else if b == [] then a
    else if KeyLess(a[0], b[0]) then [a[0]] + Merged(a[1..], b)
    else [b[0]] + Merged(a, b[1..])
  }

  /** `r` is `a` and `b` shuffled together, each keeping its own order. */
  ghost predicate Interleaving(r: seq<TimedEvent>, a: seq<TimedEvent>, b: seq<TimedEvent>)
    decreases |r|
  {
    if r == [] then a == [] && b == []
    else
      || (a != [] && r[0] == a[0] && Interleaving(r[1..], a[1..], b))
      || (b != [] && r[0] == b[0] && Interleaving(r[1..], a, b[1..]))
  }

  /** The loop of `merge_sorted` with its indices `i1`, `i2`, then the two
      `extend` calls. */
  method MergeSorted(arr1: seq<TimedEvent>, arr2: seq<TimedEvent>) returns (res: seq<TimedEvent>)
    ensures res == Merged(arr1, arr2)
  {
    var i1, i2 := 0, 0;
    res := [];
    while i1 < |arr1| && i2 < |arr2|
      invariant 0 <= i1 <= |arr1| && 0 <= i2 <= |arr2|
      invariant res + Merged(arr1[i1..], arr2[i2..]) == Merged(arr1, arr2)
    {
      assert arr1[i1..][1..] == arr1[i1 + 1..];
      assert arr2[i2..][1..] == arr2[i2 + 1..];
      if KeyLess(arr1[i1], arr2[i2]) {
        res := res + [arr1[i1]];
        i1 := i1 + 1;
      } else {
        res := res + [arr2[i2]];
        i2 := i2 + 1;
      }
    }
    res := res + arr1[i1..];
    res := res + arr2[i2..];
  }

  lemma {:induction false} MergedPermutes(a: seq<TimedEvent>, b: seq<TimedEvent>)
    ensures multiset(Merged(a, b)) == multiset(a) + multiset(b)
    ensures |Merged(a, b)| == |a| + |b|
    decreases |a| + |b|
  {
    if a != [] && b != [] {
      if KeyLess(a[0], b[0]) {
        MergedPermutes(a[1..], b);
        assert a == [a[0]] + a[1..];
      } else {
        MergedPermutes(a, b[1..]);
        assert b == [b[0]] + b[1..];
      }
    }
  }

  lemma {:induction false} MergedInterleaves(a: seq<TimedEvent>, b: seq<TimedEvent>)
    ensures Interleaving(Merged(a, b), a, b)
    decreases |a| + |b|
  {
    if a == [] {
      BOnly(b);
    } else if b == [] {
      AOnly(a);
    } else if KeyLess(a[0], b[0]) {
      MergedInterleaves(a[1..], b);
      assert Merged(a, b)[1..] == Merged(a[1..], b);
    } else {
      MergedInterleaves(a, b[1..]);
      assert Merged(a, b)[1..] == Merged(a, b[1..]);
    }
  }

  lemma {:induction false} AOnly(a: seq<TimedEvent>)
    ensures Interleaving(a, a, [])
    decreases |a|
  {
    if a != [] {
      AOnly(a[1..]);
    }
  }

  lemma {:induction false} BOnly(b: seq<TimedEvent>)
    ensures Interleaving(b, [], b)
    decreases |b|
  {
    if b != [] {
      BOnly(b[1..]);
    }
  }

  /** No element of `s` has a key below that of `x`. */
  predicate KeyLowerBound(x: TimedEvent, s: seq<TimedEvent>)
  {
    forall k :: 0 <= k < |s| ==> !KeyLess(s[k], x)
  }

  lemma {:induction false} MergedLowerBound(x: TimedEvent, a: seq<TimedEvent>, b: seq<TimedEvent>)
    requires KeyLowerBound(x, a) && KeyLowerBound(x, b)
    ensures KeyLowerBound(x, Merged(a, b))
    decreases |a| + |b|
  {
    if a != [] && b != [] {
      if KeyLess(a[0], b[0]) {
        MergedLowerBound(x, a[1..], b);
      } else {
        MergedLowerBound(x, a, b[1..]);
      }
    }
  }

  lemma ConsSorted(x: TimedEvent, s: seq<TimedEvent>)
    requires KeySorted(s) && KeyLowerBound(x, s)
    ensures KeySorted([x] + s)
  {
    var r := [x] + s;
    forall i, j | 0 <= i < j < |r|
      ensures !KeyLess(r[j], r[i])
    {
      assert r[j] == s[j - 1];
      if i > 0 {
        assert r[i] == s[i - 1];
      }
    }
  }

  /** Merging two key-sorted lists gives a key-sorted list. */
  lemma {:induction false} MergedSorted(a: seq<TimedEvent>, b: seq<TimedEvent>)
    requires KeySorted(a) && KeySorted(b)
    ensures KeySorted(Merged(a, b))
    decreases |a| + |b|
  {
    if a != [] && b != [] {
      if KeyLess(a[0], b[0]) {
        MergedSorted(a[1..], b);
        assert KeyLowerBound(a[0], a[1..]) by {
          forall k | 0 <= k < |a[1..]| ensures !KeyLess(a[1..][k], a[0]) {
            assert a[1..][k] == a[k + 1];
          }
        }
        assert KeyLowerBound(a[0], b);
        MergedLowerBound(a[0], a[1..], b);
        ConsSorted(a[0], Merged(a[1..], b));
      } else {
        MergedSorted(a, b[1..]);
        assert KeyLowerBound(b[0], b[1..]) by {
          forall k | 0 <= k < |b[1..]| ensures !KeyLess(b[1..][k], b[0]) {
            assert b[1..][k] == b[k + 1];
          }
        }
        assert KeyLowerBound(b[0], a);
        MergedLowerBound(b[0], a, b[1..]);
        ConsSorted(b[0], Merged(a, b[1..]));
      }
    }
  }

  /** The tie rule: every element of `b` whose key is not above the first
      key of `a` (in particular every one with an equal key) is placed before
      all of `a`. */
  lemma {:induction false} MergedTiesToSecond(a: seq<TimedEvent>, b: seq<TimedEvent>)
    requires a != []
    requires forall k :: 0 <= k < |b| ==> !KeyLess(a[0], b[k])
    ensures Merged(a, b) == b + a
    decreases |b|
  {
    if b != [] {
      assert !KeyLess(a[0], b[0]);
      assert Merged(a, b) == [b[0]] + Merged(a, b[1..]);
      MergedTiesToSecond(a, b[1..]);
      assert [b[0]] + (b[1..] + a) == b + a;
    }
  }

  /** Key order implies tick order. */
  lemma KeySortedNonDecreasing(s: seq<TimedEvent>)
    requires KeySorted(s)
    ensures NonDecreasing(s)
  {
    forall i, j | 0 <= i < j < |s|
      ensures s[i].tick <= s[j].tick
    {
      assert !KeyLess(s[j], s[i]);
    }
  }

  /** Among events of one kind (all timing events, or all note events) tick
      order is key order. */
  lemma NonDecreasingKeySorted(s: seq<TimedEvent>, rank: nat)
    requires NonDecreasing(s) && forall k | 0 <= k < |s| :: Rank(s[k]) == rank
    ensures KeySorted(s)
  {
  }
}
