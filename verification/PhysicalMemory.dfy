/** The frame table and free list of src/memory/mm_phys.c and src/memory/detect.h. */
module PhysicalMemory {
  import opened Common
  import opened PageTables

  const RECORD_LEN := 12       // packed 36 + 36 + 24 bits
  const MAX_FRAMES := 0x10_0000_0000 // prev_free and next_free are 36-bit indices

  /** phys_mem_free_frame: links are indices into the table, 0 for none. */
  datatype FrameRec = FrameRec(prevFree: nat, nextFree: nat, usable: bool, refs: nat)

  // ---- index, record address and physical address ----

  function EncodeFramePtr(base: nat, ptr: nat): nat
    requires ptr >= base
  {
    (ptr - base) / RECORD_LEN
  }

  function DecodeFramePtr(base: nat, index: nat): nat {
    index * RECORD_LEN + base
  }

  function FrameAddrToPhys(base: nat, ptr: nat): nat
    requires ptr >= base
  {
    EncodeFramePtr(base, ptr) * PAGE_LEN
  }

  function PhysToFrameAddr(base: nat, phys: nat): nat {
    DecodeFramePtr(base, phys / PAGE_LEN)
  }

  /** Index, record address and physical address convert into each other without loss. */
  lemma FramePtrRoundTrip(base: nat, index: nat, phys: nat)
    ensures EncodeFramePtr(base, DecodeFramePtr(base, index)) == index
    ensures FrameAddrToPhys(base, PhysToFrameAddr(base, phys)) == phys - phys % PAGE_LEN
    ensures PhysToFrameAddr(base, FrameAddrToPhys(base, DecodeFramePtr(base, index))) == DecodeFramePtr(base, index)
  {
  }

  // ---- the free list ----

  ghost predicate NoDup(s: seq<nat>) {
    forall i, j :: 0 <= i < j < |s| ==> s[i] != s[j]
  }

  /** The record at position i of the free list. */
  ghost predicate LinkedAt(recs: seq<FrameRec>, free: seq<nat>, i: nat)
    requires i < |free|
  {
    && 0 < free[i] < |recs|
    && recs[free[i]].usable && recs[free[i]].refs == 0
    && recs[free[i]].prevFree == (if i == 0 then 0 else free[i - 1])
    && recs[free[i]].nextFree == (if i + 1 < |free| then free[i + 1] else 0)
  }

  /** The records after the frame has been taken off the head of the list. */
  function Popped(recs: seq<FrameRec>, frame: nat): seq<FrameRec>
    requires frame < |recs| && recs[frame].nextFree < |recs|
  {
    var after := recs[frame].nextFree;
    var taken := recs[frame := recs[frame].(refs := 1)];
    var headed := if after == 0 then taken else taken[after := taken[after].(prevFree := 0)];
    headed[frame := headed[frame].(nextFree := 0, prevFree := 0)]
  }

  lemma PoppedKeepsList(recs: seq<FrameRec>, given: seq<nat>, free: seq<nat>)
    requires NoDup(given + free) && free != [] && forall i :: 0 <= i < |free| ==> LinkedAt(recs, free, i)
    ensures free[0] < |recs| && recs[free[0]].nextFree < |recs|
    ensures recs[free[0]].nextFree == if |free| > 1 then free[1] else 0
    ensures forall i :: 0 < i < |free| ==> free[i] != free[0]
    ensures var recs' := Popped(recs, free[0]);
            && recs'[free[0]] == FrameRec(0, 0, true, 1)
            && (forall i :: 0 <= i < |free| - 1 ==> LinkedAt(recs', free[1..], i))
            && forall f :: 0 <= f < |recs| && f != free[0] ==>
                 recs'[f].usable == recs[f].usable && recs'[f].refs == recs[f].refs
  {
    assert LinkedAt(recs, free, 0) && (|free| > 1 ==> LinkedAt(recs, free, 1));
    var recs' := Popped(recs, free[0]);
    forall i | 0 < i < |free|
      ensures free[i] != free[0] && LinkedAt(recs', free[1..], i - 1)
    {
      assert (given + free)[|given|] == free[0] && (given + free)[|given| + 1] == free[1] &&
             (given + free)[|given| + i] == free[i];
      assert LinkedAt(recs, free, i) && free[1..][i - 1] == free[i];
      assert i + 1 < |free| ==> free[1..][i] == free[i + 1];
    }
    forall i | 0 <= i < |free| - 1
      ensures LinkedAt(recs', free[1..], i)
    {
      assert LinkedAt(recs', free[1..], i + 1 - 1);
    }
  }

  class FrameAllocator {
    var recs: seq<FrameRec>
    var next: Option<nat> // phys_mem_frame_map_next_free as an index; None is NULL
    var locked: bool      // phys_mem_lock

    ghost const all: seq<nat> // the list as it was set up at boot
    ghost var free: seq<nat>  // the list that `next` and the links spell out
    ghost var given: seq<nat> // frames handed out, in order
    ghost var unused: set<nat> // frames that are still in the list

    ghost predicate Valid()
      reads this
    {
      && |recs| <= MAX_FRAMES
      && next == (if free == [] then None else Some(free[0]))
      && (forall i :: 0 <= i < |free| ==> LinkedAt(recs, free, i))
      && all == given + free && NoDup(all)
      && (forall i :: 0 <= i < |free| ==> free[i] in unused)
    }

    /** Any well-formed doubly linked list of usable, unreferenced frames other than frame 0. */
    constructor (records: seq<FrameRec>, list: seq<nat>)
      requires |records| <= MAX_FRAMES && NoDup(list) && forall i :: 0 <= i < |list| ==> LinkedAt(records, list, i)
      ensures Valid() && !locked && recs == records && free == list && given == [] && unused == set f | f in list
    {
      recs, locked := records, false;
      next := if list == [] then None else Some(list[0]);
      all, free, given, unused := list, list, [], set f | f in list;
      new;
      assert all == given + free;
    }

    /**
      find_next_free_frame: takes the head of the list.  With no free frame it returns 0 and leaves
      the mutex held, so that the next call would never return: hence the precondition.
     */
    method FindNextFreeFrame() returns (phys: nat)
      requires Valid() && !locked
      modifies this
      ensures Valid() && |recs| == old(|recs|)
      ensures old(free) == [] ==> phys == 0 && locked && recs == old(recs) && free == [] && given == old(given) &&
                                  unused == old(unused)
      ensures old(free) != [] ==>
                && !locked && phys == old(free[0]) * PAGE_LEN && 0 < old(free[0]) < |recs|
                && free == old(free)[1..] && given == old(given) + [old(free[0])]
                && old(free[0]) in old(unused) && unused == old(unused) - {old(free[0])}
                && recs[old(free[0])] == FrameRec(0, 0, true, 1)
      ensures forall f :: 0 <= f < |recs| && (old(free) == [] || f != old(free[0])) ==>
                recs[f].usable == old(recs[f].usable) && recs[f].refs == old(recs[f].refs)
    {
      locked := true;
      if next == None {
        return 0;
      }
      var frame := next.value;
      assert frame == free[0] && LinkedAt(recs, free, 0);
      PoppedKeepsList(recs, given, free);
      ghost var popped := Popped(recs, frame);
      assert given + free == given + [frame] + free[1..];
      var after := recs[frame].nextFree;
      recs := recs[frame := recs[frame].(refs := 1)];
      next := if after == 0 then None else Some(after);
      if next.Some? {
        recs := recs[after := recs[after].(prevFree := 0)];
      }
      recs := recs[frame := recs[frame].(nextFree := 0, prevFree := 0)];
      assert recs == popped;
      locked := false;
      given, free, unused := given + [frame], free[1..], unused - {frame};
      assert forall i :: 0 <= i < |free| ==> free[i] == old(free)[i + 1] && LinkedAt(recs, free, i);
      return frame * PAGE_LEN;
    }

    /** phys_mem_unref_frame: drops a reference but never puts the frame back on the list. */
    method UnrefFrame(frame: nat)
      requires Valid() && frame < |recs|
      modifies this`recs
      ensures Valid() && |recs| == old(|recs|)
      ensures var was := old(recs)[frame];
              recs == old(recs)[frame := was.(refs := if was.refs == 0 then 0 else was.refs - 1)]
    {
      if recs[frame].refs != 0 {
        assert frame !in free by {
          forall i | 0 <= i < |free|
            ensures free[i] != frame
          {
            assert LinkedAt(recs, free, i);
          }
        }
        ghost var was := recs;
        recs := recs[frame := recs[frame].(refs := recs[frame].refs - 1)];
        forall i | 0 <= i < |free|
          ensures LinkedAt(recs, free, i)
        {
          assert LinkedAt(was, free, i);
        }
      }
    }

    /** In every state the methods above can reach: no frame was handed out twice, and none is still on the list. */
    lemma NeverHandedOutTwice(i: nat, j: nat)
      requires Valid() && i < |given|
      ensures j < |given| && i != j ==> given[i] != given[j]
      ensures j < |free| ==> given[i] != free[j]
    {
      assert all[i] == given[i];
      assert j < |given| ==> all[j] == given[j];
      assert j < |free| ==> all[|given| + j] == free[j];
    }
  }
}
