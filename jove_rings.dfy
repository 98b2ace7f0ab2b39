/** The single-cursor kill ring and mark ring of the older command set in `jove.py`: a kill
    is one string and a mark one buffer position. The ring sizes and the walks over empty
    slots are those of the multi-cursor rings, but the rules differ in small ways: joining
    onto an empty slot stores the text, yank-pop moves `index` itself, and `exchange` pushes
    the new mark to the next slot. */
module JoveRings {
  import opened Wrappers
  import opened Text
  import KillRing
  import MarkRing

  /** The text of the current slot after a joining `add`: the new text alone on an empty slot,
      else appended (forward) or prepended to what is there. */
  function JoinedText(cur: Option<string>, text: string, forward: bool): (r: string)
    ensures cur.None? ==> r == text
    ensures cur.Some? ==> |r| == |cur.value| + |text|
    ensures cur.Some? && forward ==> r[..|cur.value|] == cur.value && r[|cur.value|..] == text
    ensures cur.Some? && !forward ==> r[..|text|] == text && r[|text|..] == cur.value
  {
    match cur
    case None => text
    case Some(c) => if forward then c + text else text + c
  }

  /** The walk step of yank-pop: `pop == 1` adds `RingSize - 1`, any other value adds 1, both
      taken modulo `RingSize`; that is one slot back or one slot forward. */
  lemma PopStep(p: int, pop: int, k: int)
    requires 0 <= p < KillRing.RingSize && 0 <= k < KillRing.RingSize
    ensures var incr := if pop == 1 then KillRing.RingSize - 1 else 1;
      (KillRing.StepFrom(p, pop == 1, k) + incr) % KillRing.RingSize == KillRing.StepFrom(p, pop == 1, k + 1)
  {
    var x := KillRing.StepFrom(p, pop == 1, k);
    KillRing.StepNext(p, pop == 1, k);
    if pop == 1 {
      assert x + KillRing.RingSize - 1 == (x - 1) + KillRing.RingSize;
      KillRing.WrapAround(x - 1);
      if x == 0 {
        assert (x + KillRing.RingSize - 1) % KillRing.RingSize == KillRing.RingSize - 1;
      } else {
        assert (x + KillRing.RingSize - 1) % KillRing.RingSize == x - 1;
      }
    }
  }

  /** The kill ring: `RingSize` slots of optional strings, the current `index`, and the system
      clipboard. */
  class JoveKillRing {
    const buffers: array<Option<string>>
    var index: int
    var clipboard: string

    ghost predicate Valid()
      reads this
    {
      buffers.Length == KillRing.RingSize && 0 <= index < KillRing.RingSize
    }

    /** An empty ring next to a clipboard holding `clip`. */
    constructor (clip: string)
      ensures Valid() && fresh(buffers) && index == 0 && clipboard == clip
      ensures forall i :: 0 <= i < KillRing.RingSize ==> buffers[i] == None
    {
      buffers := new Option<string>[KillRing.RingSize](_ => None);
      index := 0;
      clipboard := clip;
    }

    /** `add`: empty text is ignored; otherwise a non-joining add moves to the next slot and
        stores the text there, a joining one combines it with the current slot, and the
        clipboard then holds the current slot's text. */
    method Add(text: string, forward: bool, join: bool)
      requires Valid()
      modifies this, buffers
      ensures Valid()
      ensures text == "" ==>
        buffers[..] == old(buffers[..]) && index == old(index) && clipboard == old(clipboard)
      ensures text != "" ==> buffers[index] == Some(clipboard)
      ensures text != "" && !join ==>
        index == (old(index) + 1) % KillRing.RingSize && buffers[..] == old(buffers[..])[index := Some(text)]
      ensures text != "" && join ==>
        index == old(index) && buffers[..] == old(buffers[..])[index := Some(JoinedText(old(buffers[index]), text, forward))]
    {
      if |text| == 0 {
        return;
      }
      if !join {
        var i := index + 1;
        if i >= buffers.Length {
          i := 0;
        }
        index := i;
        buffers[index] := Some(text);
      } else {
        buffers[index] := Some(JoinedText(buffers[index], text, forward));
      }
      clipboard := buffers[index].value;
    }

    /** `get_current` with `pop == 0`: a non-empty clipboard that differs from the current
        slot is first added as a new kill; the result is the current text. */
    method Current() returns (val: Option<string>)
      requires Valid()
      modifies this, buffers
      ensures Valid() && clipboard == old(clipboard)
      ensures old(clipboard) != "" && old(buffers[index]) != Some(old(clipboard)) ==>
        val == Some(clipboard) && index == (old(index) + 1) % KillRing.RingSize
        && buffers[..] == old(buffers[..])[index := Some(clipboard)]
      ensures !(old(clipboard) != "" && old(buffers[index]) != Some(old(clipboard))) ==>
        val == old(buffers[index]) && index == old(index) && buffers[..] == old(buffers[..])
    {
      val := buffers[index];
      var clip := clipboard;
      if val != Some(clip) && clip != "" {
        Add(clip, true, false);
        val := Some(clip);
      }
    }

    /** `get_current` with `pop != 0`: `index` itself walks back (`pop == 1`) or forward over
        empty slots until one holds a kill or the walk is back where it began; the kill found
        becomes the clipboard. */
    method Rotate(pop: int) returns (val: Option<string>)
      requires Valid() && pop != 0
      modifies this
      ensures Valid()
      ensures var f := KillRing.FirstFilled(buffers[..], old(index), pop == 1, 1);
        index == (if f.Some? then f.value else old(index)) && val == buffers[index]
        && (f.Some? ==> val.Some?) && (f.None? ==> val.None?)
      ensures clipboard == if val.Some? then val.value else ""
    {
      var incr := if pop == 1 then KillRing.RingSize - 1 else 1;
      var start := index;
      ghost var down := pop == 1;
      ghost var s := buffers[..];
      PopStep(start, pop, 0);
      var i := (index + incr) % KillRing.RingSize;
      ghost var k := 1;
      while buffers[i].None? && i != start
        invariant 1 <= k <= KillRing.RingSize && i == KillRing.StepFrom(start, down, k)
        invariant clipboard == old(clipboard)
        invariant forall j :: 1 <= j < k ==> s[KillRing.StepFrom(start, down, j)].None?
        decreases KillRing.RingSize - k
      {
        PopStep(start, pop, k);
        i := (incr + i) % KillRing.RingSize;
        k := k + 1;
      }
      if buffers[i].Some? {
        KillRing.FirstFilledAt(s, start, down, 1, k);
      } else {
        assert k == KillRing.RingSize;
        KillRing.FirstFilledAt(s, start, down, 1, KillRing.RingSize + 1);
      }
      index := i;
      val := buffers[i];
      clipboard := if val.Some? then val.value else "";
    }

    /** `get_current`: the text to yank, after importing the clipboard (`pop == 0`) or after
        one yank-pop step. */
    method GetCurrent(pop: int) returns (val: Option<string>)
      requires Valid()
      modifies this, buffers
      ensures Valid()
      ensures pop == 0 && old(clipboard) != "" && old(buffers[index]) != Some(old(clipboard)) ==>
        val == Some(old(clipboard)) && clipboard == old(clipboard)
        && index == (old(index) + 1) % KillRing.RingSize
        && buffers[..] == old(buffers[..])[index := Some(clipboard)]
      ensures pop == 0 && !(old(clipboard) != "" && old(buffers[index]) != Some(old(clipboard))) ==>
        val == old(buffers[index]) && index == old(index) && buffers[..] == old(buffers[..])
        && clipboard == old(clipboard)
      ensures pop != 0 ==> buffers[..] == old(buffers[..])
      ensures pop != 0 ==> var f := KillRing.FirstFilled(old(buffers[..]), old(index), pop == 1, 1);
        index == (if f.Some? then f.value else old(index)) && val == buffers[index]
        && (f.Some? ==> val.Some? && clipboard == val.value) && (f.None? ==> val.None? && clipboard == "")
    {
      if pop == 0 {
        val := Current();
      } else {
        val := Rotate(pop);
      }
    }
  }

  /** The mark ring: `RingSize` slots, each the named region set of one mark (a single empty
      region at the mark, or nothing), the current `index`, and the region shown as the mark. */
  class JoveMarkRing {
    const slots: array<seq<Region>>
    var index: int
    var displayed: seq<Region>

    ghost predicate Valid()
      reads this
    {
      slots.Length == MarkRing.RingSize && 0 <= index < MarkRing.RingSize
    }

    /** A fresh ring with every slot erased. */
    constructor ()
      ensures Valid() && fresh(slots) && index == 0 && displayed == []
      ensures forall i :: 0 <= i < MarkRing.RingSize ==> slots[i] == []
    {
      slots := new seq<Region>[MarkRing.RingSize](_ => []);
      index := 0;
      displayed := [];
    }

    /** `get`: the position of the current mark, if its slot holds one. */
    function Get(): (r: Option<int>)
      requires Valid()
      reads this, slots
      ensures r.Some? <==> |slots[index]| > 0
    {
      if |slots[index]| > 0 then Some(slots[index][0].a) else None
    }

    /** `display`: show the current mark, if there is one; otherwise leave the display. */
    method Display()
      requires Valid()
      modifies this
      ensures Valid() && index == old(index)
      ensures displayed == if Get().Some? then [Point(Get().value)] else old(displayed)
    {
      var mark := Get();
      if mark.Some? {
        displayed := [Point(mark.value)];
      }
    }

    /** `set`: a mark at the current mark's position is not set again; otherwise the mark goes
        into the next slot, or with `sameIndex` into the current one, and is shown. */
    method Set(pos: int, sameIndex: bool)
      requires Valid()
      modifies this, slots
      ensures Valid() && Get() == Some(pos)
      ensures old(Get()) == Some(pos) ==>
        index == old(index) && slots[..] == old(slots[..]) && displayed == old(displayed)
      ensures old(Get()) != Some(pos) ==>
        index == (if sameIndex then old(index) else (old(index) + 1) % MarkRing.RingSize)
        && slots[..] == old(slots[..])[index := [Point(pos)]] && displayed == [Point(pos)]
    {
      if Get() == Some(pos) {
        return;
      }
      if !sameIndex {
        index := (index + 1) % MarkRing.RingSize;
      }
      slots[index] := [Point(pos)];
      Display();
    }

    /** `exchange`: with a current mark, set `pos` as a new mark in the next slot and return
        the old one; without one, do nothing. */
    method Exchange(pos: int) returns (val: Option<int>)
      requires Valid()
      modifies this, slots
      ensures Valid() && val == old(Get())
      ensures val.None? || val == Some(pos) ==>
        index == old(index) && slots[..] == old(slots[..]) && displayed == old(displayed)
      ensures val.Some? && val != Some(pos) ==>
        index == (old(index) + 1) % MarkRing.RingSize
        && slots[..] == old(slots[..])[index := [Point(pos)]] && displayed == [Point(pos)]
    {
      val := Get();
      if val.Some? {
        Set(pos, false);
      }
    }

    /** `pop`: return the current mark and walk back to the nearest slot holding one, or all
        the way round, then show it. No slot changes. */
    method Pop() returns (val: Option<int>)
      requires Valid()
      modifies this
      ensures Valid() && val == old(Get())
      ensures index == MarkRing.StepBack(old(index), MarkRing.PopSteps(slots[..], old(index), 1))
      ensures displayed == if Get().Some? then [Point(Get().value)] else old(displayed)
    {
      val := Get();
      var start := index;
      ghost var k := 0;
      while true
        invariant Valid() && 0 <= k < MarkRing.RingSize && index == MarkRing.StepBack(start, k)
        invariant displayed == old(displayed)
        invariant forall j :: 1 <= j <= k ==> |slots[MarkRing.StepBack(start, j)]| == 0
        decreases MarkRing.RingSize - k
      {
        MarkRing.StepBackNext(start, k);
        index := index - 1;
        if index < 0 {
          index := MarkRing.RingSize - 1;
        }
        k := k + 1;
        if Get().Some? || index == start {
          break;
        }
      }
      MarkRing.PopStepsAt(slots[..], start, 1, k);
      Display();
    }
  }
}
