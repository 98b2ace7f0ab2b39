/** The multi-cursor mark ring: 16 slots, each holding the list of regions that was the mark
    (one region per cursor), a current `index`, and the displayed copy of the current mark.
    The host stores every slot as a named region set; reading a name that was never written
    gives the empty list, so an empty list is an unset slot. */
module MarkRing {
  import opened Text

  const RingSize: nat := 16

  /** The slot `k` steps before `start`, as `pop` reaches it by counting down and wrapping
      from 0 to `RingSize - 1`. */
  function StepBack(start: int, k: int): (r: int)
    requires 0 <= start < RingSize && 0 <= k <= RingSize
    ensures 0 <= r < RingSize
    ensures r == start <==> k == 0 || k == RingSize
  {
    if k <= start then start - k else start - k + RingSize
  }

  /** One more step back is one slot lower, wrapping from 0 to `RingSize - 1`. */
  lemma StepBackNext(start: int, k: int)
    requires 0 <= start < RingSize && 0 <= k < RingSize
    ensures StepBack(start, k + 1) == if StepBack(start, k) == 0 then RingSize - 1 else StepBack(start, k) - 1
  {
  }

  /** How many steps `pop` walks back from `start`, looking from step `k` on: up to the
      nearest slot holding a mark, or the full circle back to `start`. */
  function PopSteps(s: seq<seq<Region>>, start: int, k: nat): (r: nat)
    requires |s| == RingSize && 0 <= start < RingSize && 1 <= k <= RingSize
    ensures k <= r <= RingSize
    ensures r < RingSize ==> |s[StepBack(start, r)]| > 0
    decreases RingSize - k
  {
    if k == RingSize || |s[StepBack(start, k)]| > 0 then k else PopSteps(s, start, k + 1)
  }

  /** `pop` stops at the nearest slot holding a mark: every slot it walks past is empty. */
  lemma {:induction false} PopSkipsEmpty(s: seq<seq<Region>>, start: int, k: nat, j: nat)
    requires |s| == RingSize && 0 <= start < RingSize && 1 <= k <= RingSize && k <= j < PopSteps(s, start, k)
    ensures |s[StepBack(start, j)]| == 0
    decreases j - k
  {
    if k < j {
      PopSkipsEmpty(s, start, k + 1, j);
    }
  }

  /** The walk from step `k` stops at step `m` when the slots in between are empty and the
      one at `m` holds a mark or is the start again. */
  lemma {:induction false} PopStepsAt(s: seq<seq<Region>>, start: int, k: nat, m: nat)
    requires |s| == RingSize && 0 <= start < RingSize && 1 <= k <= m <= RingSize
    requires forall j :: k <= j < m ==> |s[StepBack(start, j)]| == 0
    requires m == RingSize || |s[StepBack(start, m)]| > 0
    ensures PopSteps(s, start, k) == m
    decreases m - k
  {
    if k < m {
      PopStepsAt(s, start, k + 1, m);
    }
  }

  /** `pop` comes back to where it started exactly when no other slot holds a mark. */
  lemma PopBackAtStart(s: seq<seq<Region>>, start: int)
    requires |s| == RingSize && 0 <= start < RingSize
    ensures StepBack(start, PopSteps(s, start, 1)) == start
      <==> forall i :: 0 <= i < RingSize && i != start ==> |s[i]| == 0
  {
    if StepBack(start, PopSteps(s, start, 1)) == start {
      forall i | 0 <= i < RingSize && i != start
        ensures |s[i]| == 0
      {
        var j := if i < start then start - i else start - i + RingSize;
        assert StepBack(start, j) == i;
        PopSkipsEmpty(s, start, 1, j);
      }
    }
  }

  class MarkRing {
    /** The ring slots; `[]` is a slot that holds no mark. */
    const slots: array<seq<Region>>
    var index: int
    /** The regions shown as the mark in the gutter; `[]` when nothing is shown. */
    var displayed: seq<Region>

    ghost predicate Valid()
      reads this
    {
      slots.Length == RingSize && 0 <= index < RingSize
    }

    constructor ()
      ensures Valid() && fresh(slots) && index == 0 && displayed == []
      ensures forall i :: 0 <= i < RingSize ==> slots[i] == []
    {
      slots := new seq<Region>[RingSize](_ => []);
      index := 0;
      displayed := [];
    }

    /** `get`: the current mark. */
    function Get(): (r: seq<Region>)
      requires Valid()
      reads this, slots
      ensures r == slots[index]
    {
      slots[index]
    }

    /** `has_visible_mark`. */
    predicate HasVisibleMark()
      reads this
    {
      |displayed| > 0
    }

    /** `clear`: stop showing the mark; the ring itself is untouched. */
    method Clear()
      requires Valid()
      modifies this
      ensures Valid() && index == old(index) && displayed == [] && !HasVisibleMark()
    {
      displayed := [];
    }

    /** `display`: show the current mark. */
    method Display()
      requires Valid()
      modifies this
      ensures Valid() && index == old(index) && displayed == slots[index]
    {
      displayed := Get();
    }

    /** `set`: record `regions` as the mark, in the next slot, or in the current one with
        `reuse`. Setting the mark the ring already has does nothing at all. */
    method Set(regions: seq<Region>, reuse: bool)
      requires Valid()
      modifies this, slots
      ensures Valid() && Get() == regions
      ensures old(slots[index]) == regions ==>
        index == old(index) && slots[..] == old(slots[..]) && displayed == old(displayed)
      ensures old(slots[index]) != regions ==>
        index == (if reuse then old(index) else (old(index) + 1) % RingSize)
        && slots[..] == old(slots[..])[index := regions]
        && displayed == regions
    {
      if Get() == regions {
        return;
      }
      if !reuse {
        index := (index + 1) % RingSize;
      }
      slots[index] := regions;
      Display();
    }

    /** `exchange`: put `regions` in the current slot and return what was there. */
    method Exchange(regions: seq<Region>) returns (current: seq<Region>)
      requires Valid()
      modifies this, slots
      ensures Valid() && current == old(slots[index]) && index == old(index) && Get() == regions
      ensures slots[..] == old(slots[..])[index := regions]
      ensures displayed == if current == regions then old(displayed) else regions
    {
      current := Get();
      Set(regions, true);
    }

    /** `pop`: return the current mark and walk back to the nearest slot holding one (or all
        the way round), then show it. No slot changes. */
    method Pop() returns (regions: seq<Region>)
      requires Valid()
      modifies this
      ensures Valid() && regions == old(slots[index])
      ensures index == StepBack(old(index), PopSteps(slots[..], old(index), 1))
      ensures displayed == slots[index]
    {
      regions := Get();
      var start := index;
      ghost var k := 0;
      while true
        invariant Valid() && 0 <= k < RingSize && index == StepBack(start, k)
        invariant forall j :: 1 <= j <= k ==> |slots[StepBack(start, j)]| == 0
        decreases RingSize - k
      {
        StepBackNext(start, k);
        index := index - 1;
        if index < 0 {
          index := RingSize - 1;
        }
        k := k + 1;
        if |Get()| > 0 || index == start {
          break;
        }
      }
      PopStepsAt(slots[..], start, 1, k);
      Display();
    }
  }
}
