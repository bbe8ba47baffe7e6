/** The store: records in a memory tier or in extents of one file (src/store.c:157-819). */
module Store {
  import opened Wrappers
  import opened Disk
  import opened Extents
  import opened Holes
  import opened Allocator
  import opened Records
  import opened Spec
  import Laws
  import opened Updates
  import opened Footprint

  class Store {
    const file: File
    const heap: ExtentHeap
    const budget: nat
    const shared: bool
    var recs: map<Key, Rec>
    /** Most recently used first. */
    var lru: seq<Key>
    var resident: nat
    ghost var owner: map<Extent, (Key, nat)>

    ghost predicate Valid()
      reads this, file, heap
    {
      && file.Sane() && heap.file == file && heap.Valid()
      && heap.live == owner.Keys && heap.fileEnd <= |file.data|
      && Owned(recs, owner)
      && RecsOk(recs, file.data)
      && Tier(recs, lru, resident, budget)
    }

    /** The abstract store: what every caller sees, whatever the tier. */
    ghost function Abs(): Keyed
      reads this, file
    {
      View(recs, file.data)
    }

    /** The end of the file, and what spilling the resident records may add to it. */
    ghost function Weight(): nat
      reads this, heap
    {
      heap.fileEnd + Owed(lru, recs)
    }

    /** A new store on an empty file (src/open.c:393, 439). */
    constructor (file: File, budget: nat)
      requires file.Sane() && |file.data| == SUPER
      ensures fresh(heap) && this.file == file && this.budget == budget && !shared
      ensures Valid() && recs == map[] && Abs() == map[] && Weight() == SUPER
    {
      this.file := file;
      this.heap := new ExtentHeap(file);
      this.budget, this.shared := budget, false;
      recs, lru, resident, owner := map[], [], 0, map[];
    }

    /** A store read back from a file: nothing resident yet. */
    constructor Reopened(file: File, heap: ExtentHeap, budget: nat, shared: bool,
                         recs: map<Key, Rec>, ghost owner: map<Extent, (Key, nat)>)
      requires file.Sane() && heap.file == file && heap.Valid() && heap.live == owner.Keys
      requires heap.fileEnd <= |file.data|
      requires Owned(recs, owner) && RecsOk(recs, file.data) && forall k | k in recs :: recs[k].mem.None?
      ensures this.file == file && this.heap == heap && this.budget == budget && this.shared == shared
      ensures this.recs == recs && this.owner == owner
      ensures Valid()
    {
      this.file, this.heap, this.budget, this.shared := file, heap, budget, shared;
      this.recs, lru, resident, this.owner := recs, [], 0, owner;
    }

    // -------------------------------------------------------------- capacity

    /** One turn of ensure_extents: allocate, zero, push; an extent that cannot be zeroed is
        given back (src/store.c:281-299). */
    method GrowOnce(k: Key, need: nat) returns (ok: bool, e: Extent)
      requires Valid() && k in recs && Total(recs[k].ext) < need
      modifies this`recs, this`owner, heap, file
      ensures Valid() && Abs() == old(Abs()) && (old(file.Clean()) ==> file.Clean() && ok)
      ensures recs == if ok then old(recs)[k := old(recs[k]).(ext := old(recs[k]).ext + [e])] else old(recs)
      ensures ok ==> GoodSize(e, |old(recs[k]).ext|, need - Total(old(recs[k]).ext))
      ensures ok ==> e.len > 0 && Aligned(e.len) && Total(recs[k].ext) == Total(old(recs[k]).ext) + e.len
      ensures ok ==> || heap.fileEnd == old(heap.fileEnd)
                     || (heap.fileEnd == old(heap.fileEnd) + e.len && need <= Total(recs[k].ext)
                         && e.len == RoundUp(need - Total(old(recs[k]).ext)))
    {
      hide Partition, Separate, Owned, RecsOk, View, Tier, Bytes, GoodSize, Wrote, Torn, Total, Cut, Chosen, RoundUp;
      e := heap.Allocate(|recs[k].ext|, need - Total(recs[k].ext));
      ok := file.ZeroRange(e.foff, e.len);
      PartitionSeparate(heap.fl, heap.live, heap.fileEnd);
      FreshInvisible(recs, owner, heap.fl, heap.fileEnd, e, old(file.data), file.data);
      if !ok {
        Unchanged(recs, old(file.data), file.data);
        ghost var before, end := file.data, heap.fileEnd;
        heap.Free(e);
        assert heap.live == owner.Keys;
        PartitionSeparate(heap.fl, heap.live, heap.fileEnd);
        CutGrows(before, file.data, old(heap.fileEnd), end, heap.fileEnd, e);
        CutInvisible(recs, owner, heap.fl, heap.fileEnd, before, file.data);
        Unchanged(recs, before, file.data);
        return;
      }
      Pushed(recs, k, e, old(file.data), file.data);
      OwnedPush(recs, owner, k, e);
      owner := owner[e := (k, |recs[k].ext|)];
      recs := recs[k := recs[k].(ext := recs[k].ext + [e])];
      TierSame(old(recs), recs, lru, resident, budget);
    }

    /** ensure_extents (src/store.c:279-302). */
    method EnsureExtents(k: Key, need: nat) returns (ok: bool)
      requires Valid() && k in recs
      modifies this`recs, this`owner, heap, file
      ensures Valid() && Abs() == old(Abs()) && (old(file.Clean()) ==> file.Clean() && ok)
      ensures k in recs && recs == old(recs)[k := old(recs[k]).(ext := recs[k].ext)]
      ensures old(recs[k]).ext <= recs[k].ext
      ensures ok ==> need <= Total(recs[k].ext) && Grown(old(recs[k]).ext, recs[k].ext, need)
      ensures ok ==> heap.fileEnd <= old(heap.fileEnd) + RoundUp(need)
    {
      hide Partition, Bytes, Owned, RecsOk, View, Tier, GoodSize, Total, Grown, Growing, Aligned, RoundUp;
      ok := true;
      GrowStart(recs[k].ext, need);
      while Total(recs[k].ext) < need
        invariant Valid() && Abs() == old(Abs()) && (old(file.Clean()) ==> file.Clean())
        invariant k in recs && recs == old(recs)[k := old(recs[k]).(ext := recs[k].ext)]
        invariant Growing(old(recs[k]).ext, recs[k].ext, need) && old(recs[k]).ext <= recs[k].ext
        invariant heap.fileEnd <= old(heap.fileEnd) + if Total(recs[k].ext) < need then 0 else RoundUp(need)
        decreases need - Total(recs[k].ext)
      {
        ghost var before := recs[k].ext;
        assert Aligned(Total(before)) by {
          AlignedCapacity(recs, owner, heap.fl, heap.live, heap.fileEnd, k);
        }
        var e;
        ok, e := GrowOnce(k, need);
        if !ok {
          return;
        }
        GrowStep(old(recs[k]).ext, before, e, need);
        RoundUpMono(need - Total(before), need);
      }
      GrowDone(old(recs[k]).ext, recs[k].ext, need);
    }

    // ----------------------------------------------------------- memory tier

    /** spill (src/store.c:182-207): the buffer is released only after every byte landed. */
    method Spill(k: Key) returns (ok: bool)
      requires Valid() && k in recs
      modifies this`recs, this`owner, this`lru, this`resident, heap, file
      ensures Valid() && Abs() == old(Abs()) && (old(file.Clean()) ==> file.Clean() && ok)
      ensures k in recs && recs == old(recs)[k := old(recs[k]).(ext := recs[k].ext, mem := recs[k].mem)]
      ensures if ok then recs[k].mem.None? && lru == Without(old(lru), k)
              else recs[k].mem == old(recs[k]).mem && lru == old(lru)
      ensures resident <= old(resident) && old(recs[k]).ext <= recs[k].ext
      ensures ok ==> Weight() <= old(Weight())
    {
      hide Partition, Bytes, Owned, RecsOk, View, Tier, Total, Grown, Owed;
      if recs[k].mem.None? {
        NotResident(recs, lru, resident, budget, k);
        return true;
      }
      Leaving(recs, lru, resident, budget, k);
      ok := EnsureExtents(k, recs[k].size);
      if ok {
        ok := Land(k);
        OwedSizes(Without(old(lru), k), old(recs), recs);
      }
    }

    /** The scatter loop of spill, and the release of the buffer. */
    method Land(k: Key) returns (ok: bool)
      requires Valid() && k in recs && recs[k].mem.Some? && recs[k].size <= Total(recs[k].ext)
      modifies this`recs, this`lru, this`resident, file
      ensures Valid() && Abs() == old(Abs()) && (old(file.Clean()) ==> file.Clean() && ok)
      ensures recs == if ok then old(recs)[k := old(recs[k]).(mem := None)] else old(recs)
      ensures lru == if ok then Without(old(lru), k) else old(lru)
      ensures resident <= old(resident)
    {
      hide Partition, Bytes, Owned, RecsOk, Tier, View, Total, Scattered, ScatterTorn, Disjoint, MemCap;
      FitsCap(recs, file.data, k);
      PartitionSeparate(heap.fl, heap.live, heap.fileEnd);
      OwnedApart(recs, owner, heap.fl, heap.fileEnd, k);
      ghost var issued;
      ok, issued := ScatterWrite(file, recs[k].ext, 0, recs[k].mem.value[..recs[k].size]);
      ScatterInvisible(recs, owner, heap.fl, heap.fileEnd, k, old(file.data), file.data, 0, recs[k].size);
      if !ok {
        SpillTorn(recs, k, old(file.data), file.data);
        return;
      }
      Spilled(recs, k, old(file.data), file.data);
      OwnedSame(recs, owner, k, recs[k].(mem := None));
      TierDrop(recs, recs[k := recs[k].(mem := None)], k, lru, resident, budget);
      if resident >= |recs[k].mem.value| {
        resident := resident - |recs[k].mem.value|;
      }
      lru := Without(lru, k);
      recs := recs[k := recs[k].(mem := None)];
    }

    /** ls_evict_to (src/store.c:209-221): spill from the cold end, sparing the kept record and
        every record with an operation in flight. */
    method EvictTo(target: nat, keep: Option<Key>) returns (ok: bool)
      requires Valid()
      modifies this`recs, this`owner, this`lru, this`resident, heap, file
      ensures Valid() && Abs() == old(Abs()) && (old(file.Clean()) ==> file.Clean() && ok)
      ensures SameMeta(old(recs), recs) && Kept(old(recs), recs, keep) && resident <= old(resident)
      ensures ok ==> resident <= target || forall k | k in lru :: Pinned(recs, k, keep)
      ensures Evicted(old(lru), lru, old(recs), keep)
      ensures old(resident) <= target ==> recs == old(recs) && lru == old(lru) && unchanged(heap) && unchanged(file)
      ensures Spills(old(recs), recs) && (ok ==> Parted(old(recs), recs, old(lru), lru))
      ensures ok ==> Weight() <= old(Weight())
    {
      hide Partition, Bytes, Owned, RecsOk, View, Tier, SameMeta, Kept, Evicted, Spills, Parted;
      MetaRefl(recs, keep);
      PartedRefl(recs, lru);
      EvictedNone(lru, recs, keep);
      while resident > target
        invariant Valid() && Abs() == old(Abs()) && (old(file.Clean()) ==> file.Clean())
        invariant SameMeta(old(recs), recs) && Kept(old(recs), recs, keep) && resident <= old(resident)
        invariant Evicted(old(lru), lru, old(recs), keep)
        invariant old(resident) <= target ==> recs == old(recs) && lru == old(lru) && unchanged(heap) && unchanged(file)
        invariant Spills(old(recs), recs) && Parted(old(recs), recs, old(lru), lru)
        invariant forall j | j in lru :: j in old(lru)
        invariant Weight() <= old(Weight())
        decreases |lru|
      {
        TierIn(recs, lru, resident, budget);
        SamePinned(old(recs), recs, keep);
        var v: nat := |lru|;
        while v > 0 && (keep == Some(lru[v - 1]) || recs[lru[v - 1]].busy > 0)
          invariant v <= |lru|
          invariant forall i | v <= i < |lru| :: Pinned(recs, lru[i], keep)
        {
          v := v - 1;
        }
        if v == 0 {
          return true;
        }
        ghost var before, was, k := recs, lru, lru[v - 1];
        assert k in lru && !Pinned(recs, k, keep);
        EvictedMore(old(lru), lru, old(recs), keep, v - 1);
        ok := Spill(lru[v - 1]);
        MetaStep(old(recs), before, recs, k, keep);
        SpillsMore(old(recs), before, recs, k);
        if !ok {
          return;
        }
        PartedMore(old(recs), before, recs, old(lru), was, k);
      }
      return true;
    }

    /** ensure_cap (src/store.c:306-338): room for `need` bytes, in a buffer if the budget
        allows it, else in extents. `haveMemory` is whether the allocation of a buffer, if it
        comes to that, succeeds; then a record without extents that fits the budget is resident
        unless busy records are in the way. */
    method EnsureCap(k: Key, need: nat, haveMemory: bool) returns (ok: bool)
      requires Valid() && k in recs
      modifies this`recs, this`owner, this`lru, this`resident, heap, file
      ensures Valid() && Abs() == old(Abs()) && (old(file.Clean()) ==> file.Clean() && ok)
      ensures SameMeta(old(recs), recs) && k in recs
      ensures ok ==> need <= Cap(recs[k])
      ensures need <= old(Cap(recs[k])) ==> ok && unchanged(this) && unchanged(heap) && unchanged(file)
      ensures old(file.Clean()) && haveMemory && old(IdleBut(recs, k)) ==>
                old(recs[k]).ext == [] && old(Cap(recs[k])) < need <= budget ==> recs[k].mem.Some? && Cap(recs[k]) == need
      ensures old(file.Clean()) ==> Weight() <= old(Weight()) + RoundUp(old(recs[k]).size) + RoundUp(need)
    {
      hide Partition, Bytes, Owned, RecsOk, View, Tier, SameMeta, Kept, Total, Grown, IdleBut, Owed, RoundUp;
      MetaRefl(recs, Some(k));
      if recs[k].mem.Some? && need <= |recs[k].mem.value| {
        return true;
      }
      if recs[k].mem.None? && Total(recs[k].ext) >= need {
        return true;
      }
      if budget > 0 && recs[k].ext == [] && need <= budget {
        ok := EnsureBuffer(k, need, haveMemory);
        if ok {
          return;
        }
      }
      ghost var r1 := recs;
      ok := Spill(k);
      MetaStep(old(recs), r1, recs, k, None);
      if ok {
        ghost var r2 := recs;
        ok := EnsureExtents(k, need);
        MetaStep(old(recs), r2, recs, k, None);
        TierIn(r2, lru, resident, budget);
        OwedSizes(lru, r2, recs);
      }
    }

    /** The resident path of ensure_cap: evict others if that makes room; no room, or no
        memory, leaves the record as it was (src/store.c:314-330). */
    method EnsureBuffer(k: Key, need: nat, haveMemory: bool) returns (ok: bool)
      requires Valid() && k in recs && recs[k].ext == [] && Cap(recs[k]) < need <= budget
      modifies this`recs, this`owner, this`lru, this`resident, heap, file
      ensures Valid() && Abs() == old(Abs()) && (old(file.Clean()) ==> file.Clean())
      ensures SameMeta(old(recs), recs) && k in recs
      ensures ok ==> recs[k].mem.Some? && Cap(recs[k]) == need
      ensures !ok ==> recs[k] == old(recs[k])
      ensures old(file.Clean()) && haveMemory && old(IdleBut(recs, k)) ==> ok
      ensures old(file.Clean()) ==> Weight() <= old(Weight()) + if ok then RoundUp(old(recs[k]).size) else 0
    {
      hide Partition, Bytes, Owned, RecsOk, View, Tier, SameMeta, Kept, Total, IdleBut, Owed, RoundUp;
      MetaRefl(recs, Some(k));
      var have := if recs[k].mem.Some? then |recs[k].mem.value| else 0;
      ResidentAtLeast(recs, lru, resident, budget, k);
      if resident - have + need > budget {
        var evicted := EvictTo(budget - need + have, Some(k));
        KeptOne(old(recs), recs, k);
        ResidentAtLeast(recs, lru, resident, budget, k);
        if evicted && old(IdleBut(recs, k)) {
          OnlyKept(old(recs), recs, k, lru, resident, budget);
        }
      }
      ok := resident - have + need <= budget && haveMemory;
      if ok {
        ghost var before := recs;
        GiveBuffer(k, need);
        MetaStep(old(recs), before, recs, k, None);
        SameSize(old(recs), recs, k);
      }
    }

    /** realloc and memset of the buffer, and its accounting (src/store.c:319-326). */
    method GiveBuffer(k: Key, need: nat)
      requires Valid() && k in recs && recs[k].ext == [] && Cap(recs[k]) < need
      requires resident - MemCap(recs, k) + need <= budget
      modifies this`recs, this`lru, this`resident
      ensures Valid() && Abs() == old(Abs())
      ensures k in recs && recs == old(recs)[k := old(recs)[k].(mem := recs[k].mem)] && Cap(recs[k]) == need
      ensures recs[k].mem.Some? && lru == [k] + Without(old(lru), k)
      ensures Weight() <= old(Weight()) + RoundUp(recs[k].size)
    {
      hide Partition, Bytes, Owned, RecsOk, View, Tier, Without, RoundUp, Owed;
      TierIn(recs, lru, resident, budget);
      OwedTouch(lru, recs, k);
      var was := if recs[k].mem.Some? then recs[k].mem.value else [];
      var buffer := was + Zeros(need - |was|);
      ghost var r := recs[k].(mem := Some(buffer));
      Buffered(recs, k, file.data, buffer);
      OwnedSame(recs, owner, k, r);
      TierTouch(recs, recs[k := r], k, lru, resident, budget);
      resident := resident - |was| + need;
      lru := [k] + Without(lru, k);
      recs := recs[k := recs[k].(mem := Some(buffer))];
      OwedSizes(lru, old(recs), recs);
    }

    // ------------------------------------------------------------ lock phase

    /** Under the table lock: find or create the record, make room, set the size
        (src/store.c:407-417, 503-507, 573-585). */
    method Prepare(k: Key, need: nat) returns (ok: bool)
      requires Valid() && KeyOk(k)
      modifies this`recs, this`owner, this`lru, this`resident, heap, file
      ensures Valid() && k in recs && (old(file.Clean()) ==> file.Clean() && ok)
      ensures var c := Old(old(Abs()), k); Abs() == old(Abs())[k := if ok then Extend(c, need) else c]
      ensures ok ==> need <= recs[k].size
      ensures Settled(old(recs), recs)
      ensures old(file.Clean()) ==> Weight() <= old(Weight()) + 3 * RoundUp(need)
      ensures k in old(recs) && need <= old(recs)[k].size ==>
                ok && unchanged(this) && unchanged(heap) && unchanged(file)
      ensures k !in old(recs) && need == 0 ==>
                ok && recs == old(recs)[k := EMPTY] && unchanged(heap) && unchanged(file)
    {
      hide Partition, Bytes, Owned, RecsOk, Tier, View, SameMeta, Content, Cap, Settled, Extend, Owed, RoundUp;
      FindOrInsert(k);
      FitsCap(recs, file.data, k);
      if recs[k].size <= need {
        RoundUpMono(recs[k].size, need);
      }
      ghost var before := recs;
      var haveMemory: bool := *;
      ok := EnsureCap(k, need, haveMemory);
      SameSize(before, recs, k);
      SettledGrown(old(recs), before, recs, k, Max(recs[k].size, need));
      if ok {
        SetSize(k, need);
      }
    }

    /** ls_toc_find, and ls_toc_insert of an empty record if there is none. */
    method FindOrInsert(k: Key)
      requires Valid() && KeyOk(k)
      modifies this`recs
      ensures Valid() && k in recs && Settled(old(recs), recs)
      ensures Abs() == old(Abs())[k := Old(old(Abs()), k)] && k in Abs()
      ensures recs == if k in old(recs) then old(recs) else old(recs)[k := EMPTY]
      ensures Weight() == old(Weight())
    {
      hide Partition, Bytes, Owned, RecsOk, Tier, Settled;
      SettledLess(recs, k);
      TierIn(recs, lru, resident, budget);
      if k !in recs {
        OwedSizes(lru, recs, recs[k := EMPTY]);
        InsertedEmpty(recs, owner, file.data, k, lru, resident, budget);
        recs := recs[k := EMPTY];
      }
    }

    /** The size only ever grows, over bytes that are already zero. */
    method SetSize(k: Key, need: nat)
      requires Valid() && k in recs && need <= Cap(recs[k])
      modifies this`recs
      ensures Valid() && k in recs && need <= recs[k].size
      ensures recs == old(recs)[k := old(recs)[k].(size := Max(old(recs)[k].size, need))]
      ensures need <= old(recs)[k].size ==> recs == old(recs)
      ensures k in old(Abs()) && Abs() == old(Abs())[k := Extend(old(Abs())[k], need)]
      ensures Weight() <= old(Weight()) + RoundUp(need)
    {
      hide Partition, Bytes, Owned, RecsOk, Tier, Content, Cap, RoundUp;
      TierIn(recs, lru, resident, budget);
      OwedResize(lru, recs, k, need);
      Sized(recs, file.data, k, need);
      OwnedSame(recs, owner, k, recs[k].(size := Max(recs[k].size, need)));
      TierResize(recs, k, Max(recs[k].size, need), lru, resident, budget);
      if need > recs[k].size {
        recs := recs[k := recs[k].(size := need)];
      }
    }

    /** Take the place of the record: most recently used, one more operation in flight
        (src/store.c:419-421). */
    method Begin(k: Key)
      requires Valid() && k in recs
      modifies this`recs, this`lru
      ensures Valid() && Abs() == old(Abs())
      ensures recs == old(recs)[k := old(recs)[k].(busy := old(recs)[k].busy + 1)]
      ensures lru == if recs[k].mem.Some? then [k] + Without(old(lru), k) else old(lru)
      ensures Weight() == old(Weight())
    {
      hide Partition, Bytes, Owned, RecsOk, Tier, View, Owed;
      Resides(recs, lru, resident, budget, k);
      Marked(recs, owner, file.data, k, recs[k].busy + 1);
      recs := recs[k := recs[k].(busy := recs[k].busy + 1)];
      TierSame(old(recs), recs, lru, resident, budget);
      if recs[k].mem.Some? {
        TierTouch(recs, recs, k, lru, resident, budget);
        lru := [k] + Without(lru, k);
      }
      OwedSizes(lru, old(recs), recs);
    }

    method Finish(k: Key)
      requires Valid() && k in recs && recs[k].busy > 0
      modifies this`recs
      ensures Valid() && Abs() == old(Abs())
      ensures recs == old(recs)[k := old(recs)[k].(busy := old(recs)[k].busy - 1)]
      ensures Weight() == old(Weight())
    {
      hide Partition, Bytes, Owned, RecsOk, Tier, View, Owed;
      TierIn(recs, lru, resident, budget);
      Marked(recs, owner, file.data, k, recs[k].busy - 1);
      recs := recs[k := recs[k].(busy := recs[k].busy - 1)];
      OwedSizes(lru, old(recs), recs);
      TierSame(old(recs), recs, lru, resident, budget);
    }

    // ------------------------------------------------------------ data phase

    /** ls_scatter, writing (src/store.c:342-375). */
    method WriteRange(k: Key, seg: Seg) returns (ok: bool)
      requires Valid() && k in recs && seg.off + |seg.buf| <= recs[k].size
      modifies this`recs, file
      ensures Valid() && (old(file.Clean()) ==> file.Clean() && ok)
      ensures k in recs && recs == old(recs)[k := old(recs)[k].(mem := recs[k].mem)]
      ensures ok ==> Abs() == old(Abs())[k := Overlay(old(Abs())[k], seg.off, seg.buf)]
      ensures !ok ==> Smudged(old(Abs()), Abs(), k, [seg])
      ensures HeapOnly(old(file.data), file.data, heap.fileEnd)
    {
      hide Partition, Bytes, Owned, RecsOk, Tier, Content, Cap, Total, Scattered, ScatterTorn, Disjoint,
           HeapOnly, Smudged;
      PartitionSeparate(heap.fl, heap.live, heap.fileEnd);
      if recs[k].mem.Some? {
        FitsCap(recs, file.data, k);
        BufferWrote(recs, k, file.data, seg);
        OwnedSame(recs, owner, k, recs[k].(mem := Some(Overlay(recs[k].mem.value, seg.off, seg.buf))));
        TierOverlay(recs, k, seg.off, seg.buf, lru, resident, budget);
        recs := recs[k := recs[k].(mem := Some(Overlay(recs[k].mem.value, seg.off, seg.buf)))];
        FrozenRefl(recs, file.data, heap.fileEnd);
        return true;
      }
      FitsCap(recs, file.data, k);
      OwnedApart(recs, owner, heap.fl, heap.fileEnd, k);
      ghost var issued;
      ok, issued := ScatterWrite(file, recs[k].ext, seg.off, seg.buf);
      ScatterInvisible(recs, owner, heap.fl, heap.fileEnd, k, old(file.data), file.data, seg.off, |seg.buf|);
      OutsideHeap(recs, owner, heap.fl, heap.fileEnd, k, old(file.data), file.data, seg.off, |seg.buf|);
      if ok {
        DataWrote(recs, k, old(file.data), file.data, seg);
      } else {
        DataTorn(recs, k, old(file.data), file.data, seg);
      }
    }

    /** ls_scatter, reading. */
    method ReadRange(k: Key, span: Span) returns (ok: bool, got: seq<byte>)
      requires Valid() && k in recs && span.off + span.len <= recs[k].size
      modifies file`script
      ensures Valid() && Abs() == old(Abs()) && (old(file.Clean()) ==> file.Clean() && ok)
      ensures ok ==> got == Abs()[k][span.off..span.off + span.len]
    {
      hide Partition, Bytes, Owned, RecsOk, Tier, Total, Disjoint;
      if recs[k].mem.Some? {
        FitsCap(recs, file.data, k);
        got := recs[k].mem.value[span.off..span.off + span.len];
        assert got == Content(recs[k], file.data)[span.off..span.off + span.len];
        return true, got;
      }
      PartitionSeparate(heap.fl, heap.live, heap.fileEnd);
      FitsCap(recs, file.data, k);
      OwnedApart(recs, owner, heap.fl, heap.fileEnd, k);
      InsideFile(recs[k].ext, heap.fileEnd, |file.data|);
      ok, got := ScatterRead(file, recs[k].ext, span.off, span.len);
      if ok {
        assert got == Content(recs[k], file.data)[span.off..span.off + span.len];
      }
    }

    /** The data phase of a write: one scatter per segment (src/store.c:661-673). */
    method WriteSegs(k: Key, segs: seq<Seg>) returns (ok: bool)
      requires Valid() && k in recs && High(segs) <= recs[k].size
      modifies this`recs, this`lru, file
      ensures Valid() && (old(file.Clean()) ==> file.Clean() && ok)
      ensures Frozen(old(recs), recs) && HeapOnly(old(file.data), file.data, heap.fileEnd)
      ensures k in old(Abs()) && High(segs) <= |old(Abs())[k]|
      ensures ok ==> Abs() == old(Abs())[k := Overlays(old(Abs())[k], segs)]
      ensures !ok ==> Smudged(old(Abs()), Abs(), k, segs)
      ensures Weight() == old(Weight())
    {
      hide Partition, Bytes, Owned, RecsOk, Tier, View, HeapOnly, Smudged, Overlays, High, Owed;
      SizeOf(recs, file.data, k);
      Begin(k);
      ghost var begun := recs;
      TierIn(recs, lru, resident, budget);
      ok := ScatterSegs(k, segs);
      OwedSizes(lru, begun, recs);
      Finish(k);
    }

    method ScatterSegs(k: Key, segs: seq<Seg>) returns (ok: bool)
      requires Valid() && k in recs && High(segs) <= recs[k].size
      modifies this`recs, file
      ensures Valid() && (old(file.Clean()) ==> file.Clean() && ok)
      ensures k in recs && recs == old(recs)[k := old(recs)[k].(mem := recs[k].mem)]
      ensures HeapOnly(old(file.data), file.data, heap.fileEnd)
      ensures k in old(Abs()) && High(segs) <= |old(Abs())[k]|
      ensures ok ==> Abs() == old(Abs())[k := Overlays(old(Abs())[k], segs)]
      ensures !ok ==> Smudged(old(Abs()), Abs(), k, segs)
    {
      hide Partition, Bytes, Owned, RecsOk, Tier, View, HeapOnly, Smudged, High, Overlay, Overlays, Frozen, Old;
      ghost var m := Abs();
      SizeOf(recs, file.data, k);
      FrozenRefl(recs, file.data, heap.fileEnd);
      NoSegs(m, k, segs);
      var i: nat := 0;
      while i < |segs|
        invariant i <= |segs|
        invariant Valid() && (old(file.Clean()) ==> file.Clean())
        invariant k in recs && recs == old(recs)[k := old(recs)[k].(mem := recs[k].mem)]
        invariant HeapOnly(old(file.data), file.data, heap.fileEnd)
        invariant High(segs[..i]) <= |m[k]|
        invariant Abs() == m[k := Overlays(m[k], segs[..i])]
      {
        ghost var before := file.data;
        OverlaysNext(m[k], segs, i);
        ok := WriteRange(k, segs[i]);
        OutsideTrans(old(file.data), before, file.data, heap.fileEnd);
        if !ok {
          SmudgedSegs(m, Abs(), k, segs, i);
          return;
        }
        i := i + 1;
      }
      assert segs[..|segs|] == segs;
      return true;
    }

    /** The data phase of a read. */
    method ReadSpans(k: Key, spans: seq<Span>) returns (ok: bool, data: seq<seq<byte>>)
      requires Valid() && k in recs && HighSpan(spans) <= recs[k].size
      modifies this`recs, this`lru, file`script
      ensures Valid() && Abs() == old(Abs()) && (old(file.Clean()) ==> file.Clean() && ok)
      ensures Frozen(old(recs), recs)
      ensures k in Abs() && HighSpan(spans) <= |Abs()[k]|
      ensures ok ==> data == Cuts(Abs()[k], spans)
      ensures Weight() == old(Weight())
    {
      hide Partition, Bytes, Owned, RecsOk, Tier, View, Cuts, HighSpan, Owed;
      SizeOf(recs, file.data, k);
      Begin(k);
      ok, data := GatherSpans(k, spans);
      Finish(k);
    }

    method GatherSpans(k: Key, spans: seq<Span>) returns (ok: bool, data: seq<seq<byte>>)
      requires Valid() && k in recs && HighSpan(spans) <= recs[k].size
      modifies file`script
      ensures Valid() && Abs() == old(Abs()) && (old(file.Clean()) ==> file.Clean() && ok)
      ensures k in Abs() && HighSpan(spans) <= |Abs()[k]|
      ensures ok ==> data == Cuts(Abs()[k], spans)
    {
      hide Partition, Bytes, Owned, RecsOk, Tier, View, Cuts, HighSpan, Old;
      SizeOf(recs, file.data, k);
      data := [];
      var i: nat := 0;
      while i < |spans|
        invariant i <= |spans|
        invariant Valid() && Abs() == old(Abs()) && (old(file.Clean()) ==> file.Clean())
        invariant data == Cuts(Abs()[k], spans[..i])
      {
        CutsNext(Abs()[k], spans, i);
        var got;
        ok, got := ReadRange(k, spans[i]);
        if !ok {
          return;
        }
        data := data + [got];
        i := i + 1;
      }
      assert spans[..|spans|] == spans;
      return true, data;
    }

    // ------------------------------------------------------------ operations

    /** Lock phase and data phase of a write of several segments. */
    method PutSegs(k: Key, segs: seq<Seg>) returns (ok: bool)
      requires Valid() && KeyOk(k)
      modifies this`recs, this`owner, this`lru, this`resident, heap, file
      ensures Valid() && (old(file.Clean()) ==> file.Clean() && ok)
      ensures var c := Extend(Old(old(Abs()), k), High(segs)); ok ==> Abs() == old(Abs())[k := Overlays(c, segs)]
      ensures !ok ==> Spared(old(Abs()), Abs(), k, segs)
      ensures Settled(old(recs), recs)
      ensures old(file.Clean()) ==> Weight() <= old(Weight()) + 3 * RoundUp(High(segs))
      ensures k in old(recs) && High(segs) <= old(recs)[k].size ==>
                && Frozen(old(recs), recs) && unchanged(heap)
                && HeapOnly(old(file.data), file.data, heap.fileEnd)
    {
      hide Partition, Bytes, Owned, RecsOk, Tier, View, HeapOnly, Frozen, Settled, Smudged, High, Extend,
           Overlays, Owed, RoundUp;
      ghost var m := Abs();
      ok := Prepare(k, High(segs));
      if !ok {
        return;
      }
      ghost var prepared := recs;
      ok := WriteSegs(k, segs);
      SettledFrozen(old(recs), prepared, recs);
    }

    /** ls_erase (src/store.c:481-492, src/toc.c:85-99). */
    method EraseKey(k: Key)
      requires Valid() && k in recs
      modifies this`recs, this`owner, this`lru, this`resident, heap, file
      ensures Valid() && (old(file.Clean()) ==> file.Clean())
      ensures Abs() == old(Abs()) - {k}
      ensures recs == old(recs) - {k}
      ensures Weight() <= old(Weight())
      ensures old(recs)[k].ext == [] ==>
                file.data == old(file.data) && file.script == old(file.script) && heap.fileEnd == old(heap.fileEnd)
    {
      hide Partition, Bytes, Owned, RecsOk, Tier, View, Distinct, Owed, Without, Separate;
      ghost var gone := set e | e in recs[k].ext;
      OwnedErase(recs, owner, k);
      TierDrop(recs, recs - {k}, k, lru, resident, budget);
      Departing(recs, lru, resident, budget, k);
      if recs[k].mem.Some? && resident >= |recs[k].mem.value| {
        resident := resident - |recs[k].mem.value|;
      }
      lru := Without(lru, k);
      heap.FreeAll(recs[k].ext);
      recs := recs - {k};
      owner := owner - gone;
      assert heap.live == owner.Keys;
      PartitionSeparate(heap.fl, heap.live, heap.fileEnd);
      CutInvisible(recs, owner, heap.fl, heap.fileEnd, old(file.data), file.data);
      Erased(old(recs), k, old(file.data));
      Unchanged(recs, old(file.data), file.data);
    }

    /** Every data operation refines the abstract store, in every tier and under every fault;
        in a shared store none of them moves anything. */
    method Do(op: Op) returns (r: Reply)
      requires Valid()
      modifies this`recs, this`owner, this`lru, this`resident, heap, file
      ensures Valid() && (old(file.Clean()) ==> file.Clean() && r.status != Io)
      ensures Did(old(Abs()), Abs(), op, shared, r) && Settled(old(recs), recs)
      ensures r.status == Inval <==> |op.key| == 0 || |op.key| > 255 || 0 in op.key
      ensures old(file.Clean()) ==> Weight() <= old(Weight()) + Cost(old(Abs()), op)
      ensures shared ==> Frozen(old(recs), recs) && unchanged(heap) && HeapOnly(old(file.data), file.data, heap.fileEnd)
    {
      hide Partition, Bytes, Owned, RecsOk, Tier, View, HeapOnly, Frozen, Settled, Spared, Did, Apply, Owed, Cost;
      FrozenRefl(recs, file.data, heap.fileEnd);
      SettledLess(recs, op.key);
      if !KeyOk(op.key) {
        FailOutcome(Abs(), op, shared);
        return Just(Inval);
      }
      match op {
        case Write(k, off, buf) =>
          r := DoWrite(op, [Seg(off, buf)]);
        case Writev(k, segs) =>
          r := DoWrite(op, segs);
        case Read(k, off, n) =>
          r := DoRead(op, [Span(off, n)]);
          SettledFrozen(old(recs), old(recs), recs);
        case Readv(k, spans) =>
          r := DoRead(op, spans);
          SettledFrozen(old(recs), old(recs), recs);
        case _ =>
          r := DoLayout(op);
      }
      Laws.NotInvalid(old(Abs()), Abs(), op, shared, r);
    }

    /** ls_rw and segv, writing (src/store.c:377-433, 604-678). */
    method DoWrite(op: Op, segs: seq<Seg>) returns (r: Reply)
      requires Valid() && KeyOk(op.key)
      requires (op.Write? && segs == [Seg(op.off, op.buf)]) || (op.Writev? && segs == op.segs)
      modifies this`recs, this`owner, this`lru, this`resident, heap, file
      ensures Valid() && (old(file.Clean()) ==> file.Clean() && r.status != Io)
      ensures Did(old(Abs()), Abs(), op, shared, r) && Settled(old(recs), recs)
      ensures old(file.Clean()) ==> Weight() <= old(Weight()) + Cost(old(Abs()), op)
      ensures shared ==> Frozen(old(recs), recs) && unchanged(heap) && HeapOnly(old(file.data), file.data, heap.fileEnd)
    {
      hide Partition, Bytes, Owned, RecsOk, Tier, View, HeapOnly, Frozen, Settled, Spared, Did, Apply, Overlays,
           High, Owed, RoundUp;
      FrozenRefl(recs, file.data, heap.fileEnd);
      SettledLess(recs, op.key);
      var k := op.key;
      SizeOf(recs, file.data, k);
      ghost var m := Abs();
      WriteOutcome(m, op, shared, segs);
      if segs == [] {
        return Just(Ok);
      }
      if High(segs) >= LIMIT {
        return Just(Range);
      }
      if shared && (k !in recs || High(segs) > recs[k].size) {
        return Just(Mode);
      }
      var ok := PutSegs(k, segs);
      if ok {
        return Just(Ok);
      }
      DidTorn(m, Abs(), op, shared, segs);
      return Just(Io);
    }

    /** ls_rw and segv, reading. */
    method DoRead(op: Op, spans: seq<Span>) returns (r: Reply)
      requires Valid() && KeyOk(op.key)
      requires (op.Read? && spans == [Span(op.off, op.n)]) || (op.Readv? && spans == op.spans)
      modifies this`recs, this`lru, file`script
      ensures Valid() && (old(file.Clean()) ==> file.Clean() && r.status != Io)
      ensures Did(old(Abs()), Abs(), op, shared, r) && Frozen(old(recs), recs) && Weight() == old(Weight())
    {
      hide Partition, Bytes, Owned, RecsOk, Tier, View, Frozen, Spared, Did, Apply, Cuts, HighSpan, Owed;
      FrozenRefl(recs, file.data, heap.fileEnd);
      var k := op.key;
      SizeOf(recs, file.data, k);
      ghost var m := Abs();
      ReadOutcome(m, op, shared, spans);
      if spans == [] {
        return Just(Ok);
      }
      if HighSpan(spans) >= LIMIT {
        return Just(Range);
      }
      if k !in recs {
        return Just(NoKey);
      }
      if HighSpan(spans) > recs[k].size {
        return Just(Range);
      }
      var ok, data := ReadSpans(k, spans);
      if ok {
        return Reply(Ok, data, 0);
      }
      FailOutcome(m, op, shared);
      return Just(Io);
    }

    /** ls_reserve, ls_append, ls_erase: refused when the layout is frozen
        (src/store.c:481-513, 556-600). */
    method DoLayout(op: Op) returns (r: Reply)
      requires Valid() && KeyOk(op.key) && (op.Reserve? || op.Append? || op.Erase?)
      modifies this`recs, this`owner, this`lru, this`resident, heap, file
      ensures Valid() && (old(file.Clean()) ==> file.Clean() && r.status != Io)
      ensures Did(old(Abs()), Abs(), op, shared, r) && Settled(old(recs), recs)
      ensures old(file.Clean()) ==> Weight() <= old(Weight()) + Cost(old(Abs()), op)
      ensures shared ==> Frozen(old(recs), recs) && unchanged(heap) && HeapOnly(old(file.data), file.data, heap.fileEnd)
    {
      hide Partition, Bytes, Owned, RecsOk, Tier, View, HeapOnly, Frozen, Settled, Spared, Did, Apply, Overlays,
           High, Owed, RoundUp;
      FrozenRefl(recs, file.data, heap.fileEnd);
      SettledLess(recs, op.key);
      var k := op.key;
      SizeOf(recs, file.data, k);
      ghost var m := Abs();
      LayoutOutcome(m, op, shared);
      if shared {
        return Just(Mode);
      }
      match op
      case Erase(_) =>
        if k !in recs {
          return Just(NoKey);
        }
        EraseKey(k);
        return Just(Ok);
      case Reserve(_, n) =>
        var ok := Prepare(k, n);
        if !ok {
          FailOutcome(m, op, shared);
          return Just(Io);
        }
        return Just(Ok);
      case Append(_, buf) =>
        r := AppendTo(k, buf);
        if r.status == Io {
          DidTorn(m, Abs(), op, shared, [Seg(|Old(m, k)|, buf)]);
        }
    }

    /** ls_append: the offset is taken and the record extended in one lock phase. */
    method AppendTo(k: Key, buf: seq<byte>) returns (r: Reply)
      requires Valid() && KeyOk(k)
      modifies this`recs, this`owner, this`lru, this`resident, heap, file
      ensures Valid() && (old(file.Clean()) ==> file.Clean() && r.status != Io)
      ensures var c := Old(old(Abs()), k);
              if |c| + |buf| >= LIMIT then r == Just(Range) && Abs() == old(Abs())[k := c]
              else if r.status == Io then r == Just(Io) && Spared(old(Abs()), Abs(), k, [Seg(|c|, buf)])
              else r == Reply(Ok, [], |c|) && Abs() == old(Abs())[k := c + buf]
      ensures Settled(old(recs), recs)
      ensures old(file.Clean()) ==> Weight() <= old(Weight()) + 3 * RoundUp(High([Seg(|Old(old(Abs()), k)|, buf)]))
    {
      hide Partition, Bytes, Owned, RecsOk, Tier, View, Settled, Spared, Overlays, High, Owed, RoundUp;
      SettledLess(recs, k);
      SizeOf(recs, file.data, k);
      ghost var m := Abs();
      var off := if k in recs then recs[k].size else 0;
      if off + |buf| >= LIMIT {
        FindOrInsert(k);
        return Just(Range);
      }
      AppendIsPut(Old(m, k), buf);
      var ok := PutSegs(k, [Seg(off, buf)]);
      return if ok then Reply(Ok, [], off) else Just(Io);
    }

    /** A run of operations. Whatever fails, every step did what it should or spared the rest;
        without faults the replies and the final contents are those of the abstract store. In a
        shared store nothing has moved at the end. */
    method Run(ops: seq<Op>) returns (replies: seq<Reply>, ghost trace: seq<Keyed>)
      requires Valid()
      modifies this`recs, this`owner, this`lru, this`resident, heap, file
      ensures Valid()
      ensures Traced(trace, ops, shared, replies) && trace[0] == old(Abs()) && trace[|ops|] == Abs()
      ensures old(file.Clean()) ==> file.Clean() && (Abs(), replies) == Spec.Run(old(Abs()), ops, shared)
      ensures old(Idle(recs)) ==> Idle(recs)
      ensures old(file.Clean()) && !shared ==> Weight() <= old(Weight()) + Costs(old(Abs()), ops)
      ensures shared ==> Frozen(old(recs), recs) && unchanged(heap) && HeapOnly(old(file.data), file.data, heap.fileEnd)
    {
      hide Partition, Bytes, Owned, RecsOk, Tier, View, Apply, HeapOnly, Frozen, Settled, Idle, Spared, Did,
           Owed, Cost;
      replies, trace := [], [Abs()];
      FrozenRefl(recs, file.data, heap.fileEnd);
      var i: nat := 0;
      while i < |ops|
        invariant i <= |ops|
        invariant Valid() && (old(file.Clean()) ==> file.Clean())
        invariant old(Idle(recs)) ==> Idle(recs)
        invariant old(file.Clean()) && !shared ==> Weight() <= old(Weight()) + Costs(old(Abs()), ops[..i])
        invariant shared ==> Frozen(old(recs), recs) && unchanged(heap) && HeapOnly(old(file.data), file.data, heap.fileEnd)
        invariant Traced(trace, ops[..i], shared, replies) && trace[0] == old(Abs()) && trace[i] == Abs()
        invariant old(file.Clean()) ==> (Abs(), replies) == Spec.Run(old(Abs()), ops[..i], shared)
      {
        assert ops[..i + 1][..i] == ops[..i];
        ghost var m, before, f := Abs(), recs, file.data;
        var r := Do(ops[i]);
        if shared {
          FrozenTrans(old(recs), before, recs, old(file.data), f, file.data, heap.fileEnd);
        }
        if Idle(before) {
          SettledIdle(before, recs);
        }
        if old(file.Clean()) {
          DidIsApply(m, Abs(), ops[i], shared, r);
        }
        replies, trace := replies + [r], trace + [Abs()];
        i := i + 1;
      }
      assert ops[..|ops|] == ops;
    }

    // ------------------------------------------------------------ accumulate

    /** ls_accumulate (src/store.c:754-819): in place on a resident buffer, chunk by chunk on
        extents; the same record either way. */
    method Accumulate(k: Key, off: nat, buf: seq<byte>, op: Reduction) returns (st: Status)
      requires Valid() && Splits(op)
      modifies this`recs, this`owner, this`lru, this`resident, heap, file
      ensures Valid() && (old(file.Clean()) ==> file.Clean() && st != Io)
      ensures var m := old(Abs()); var c := Old(m, k);
              if !KeyOk(k) then st == Inval && Abs() == m
              else if off + |buf| >= LIMIT then st == Range && Abs() == m
              else if buf == [] then st == Ok && Abs() == m
              else if shared && (k !in m || off + |buf| > |c|) then st == Mode && Abs() == m
              else if st == Io then Spared(m, Abs(), k, [Seg(off, buf)])
              else st == Ok && Abs() == m[k := Reduced(Extend(c, off + |buf|), off, buf, op)]
      ensures Settled(old(recs), recs)
      ensures shared ==> Frozen(old(recs), recs) && unchanged(heap) && HeapOnly(old(file.data), file.data, heap.fileEnd)
    {
      hide Partition, Bytes, Owned, RecsOk, Tier, View, HeapOnly, Frozen, Settled, Smudged, Splits, Reduced, Extend;
      FrozenRefl(recs, file.data, heap.fileEnd);
      SettledLess(recs, k);
      SizeOf(recs, file.data, k);
      if !KeyOk(k) {
        return Inval;
      }
      if off + |buf| >= LIMIT {
        return Range;
      }
      if buf == [] {
        return Ok;
      }
      if shared && (k !in recs || off + |buf| > recs[k].size) {
        return Mode;
      }
      ghost var m := Abs();
      var ok := Prepare(k, off + |buf|);
      Laws.OneHigh(off, buf);
      if !ok {
        return Io;
      }
      ghost var prepared := recs;
      ok := Reduce(k, off, buf, op);
      SettledFrozen(old(recs), prepared, recs);
      return if ok then Ok else Io;
    }

    /** The data phase of ls_accumulate. */
    method Reduce(k: Key, off: nat, buf: seq<byte>, op: Reduction) returns (ok: bool)
      requires Valid() && Splits(op) && k in recs && off + |buf| <= recs[k].size
      modifies this`recs, this`lru, file
      ensures Valid() && (old(file.Clean()) ==> file.Clean() && ok)
      ensures k in old(Abs()) && off + |buf| <= |old(Abs())[k]|
      ensures ok ==> Abs() == old(Abs())[k := Reduced(old(Abs())[k], off, buf, op)]
      ensures !ok ==> Smudged(old(Abs()), Abs(), k, [Seg(off, buf)])
      ensures Frozen(old(recs), recs) && HeapOnly(old(file.data), file.data, heap.fileEnd)
    {
      hide Partition, Bytes, Owned, RecsOk, Tier, View, Smudged, Splits, Reduced, HeapOnly;
      SizeOf(recs, file.data, k);
      Begin(k);
      if recs[k].mem.Some? {
        ok := ReduceBuffer(k, off, buf, op);
      } else {
        ok := ReduceChunks(k, off, buf, op);
      }
      Finish(k);
    }

    method ReduceBuffer(k: Key, off: nat, buf: seq<byte>, op: Reduction) returns (ok: bool)
      requires Valid() && Splits(op) && k in recs && recs[k].mem.Some? && off + |buf| <= recs[k].size
      modifies this`recs, file
      ensures Valid() && ok && (old(file.Clean()) ==> file.Clean())
      ensures k in recs && recs == old(recs)[k := old(recs)[k].(mem := recs[k].mem)]
      ensures k in old(Abs()) && off + |buf| <= |old(Abs())[k]|
      ensures Abs() == old(Abs())[k := Reduced(old(Abs())[k], off, buf, op)]
      ensures HeapOnly(old(file.data), file.data, heap.fileEnd)
    {
      hide Partition, Bytes, Owned, RecsOk, Tier, View, Overlay, Splits, MemCap, HeapOnly;
      FrozenRefl(recs, file.data, heap.fileEnd);
      SizeOf(recs, file.data, k);
      FitsCap(recs, file.data, k);
      BufferIs(recs, file.data, k, off, |buf|);
      var out := op(recs[k].mem.value[off..off + |buf|], buf);
      KeepsLength(op, recs[k].mem.value[off..off + |buf|], buf);
      BufferWrote(recs, k, file.data, Seg(off, out));
      OwnedSame(recs, owner, k, recs[k].(mem := Some(Overlay(recs[k].mem.value, off, out))));
      TierOverlay(recs, k, off, out, lru, resident, budget);
      recs := recs[k := recs[k].(mem := Some(Overlay(recs[k].mem.value, off, out)))];
      ok := true;
    }

    method ReduceChunks(k: Key, off: nat, buf: seq<byte>, op: Reduction) returns (ok: bool)
      requires Valid() && Splits(op) && k in recs && off + |buf| <= recs[k].size
      modifies this`recs, file
      ensures Valid() && (old(file.Clean()) ==> file.Clean() && ok)
      ensures k in recs && recs == old(recs)[k := old(recs)[k].(mem := recs[k].mem)]
      ensures k in old(Abs()) && off + |buf| <= |old(Abs())[k]|
      ensures ok ==> Abs() == old(Abs())[k := Reduced(old(Abs())[k], off, buf, op)]
      ensures !ok ==> Smudged(old(Abs()), Abs(), k, [Seg(off, buf)])
      ensures HeapOnly(old(file.data), file.data, heap.fileEnd)
    {
      hide Partition, Bytes, Owned, RecsOk, Tier, View, Overlay, Smudged, HeapOnly, Splits, Reduced;
      ghost var m := Abs();
      FrozenRefl(recs, file.data, heap.fileEnd);
      SizeOf(recs, file.data, k);
      ReducedNone(m, k, off, op);
      assert buf[..0] == [];
      var done: nat := 0;
      while done < |buf|
        invariant done <= |buf| && (done < |buf| ==> done % CHUNK == 0)
        invariant Valid() && (old(file.Clean()) ==> file.Clean())
        invariant k in recs && recs == old(recs)[k := old(recs)[k].(mem := recs[k].mem)]
        invariant Abs() == m[k := Reduced(m[k], off, buf[..done], op)]
        invariant HeapOnly(old(file.data), file.data, heap.fileEnd)
      {
        var n := Min(|buf| - done, CHUNK);
        ghost var before := Abs();
        var got;
        ok, got := ReadRange(k, Span(off + done, n));
        if !ok {
          SmudgedReduced(m, Abs(), k, off, buf, done, n, op, got);
          return;
        }
        var out := op(got, buf[done..done + n]);
        ReduceStep(m[k], off, buf, done, n, op);
        ghost var f := file.data;
        ok := WriteRange(k, Seg(off + done, out));
        OutsideTrans(old(file.data), f, file.data, heap.fileEnd);
        if !ok {
          SmudgedReduced(m, Abs(), k, off, buf, done, n, op, out);
          return;
        }
        done := done + n;
      }
      assert buf[..done] == buf;
      return true;
    }
  }

  /** The budget is invisible: two stores that differ only in it, in how their transfers are
      split, and in whether they bypass the page cache, give the same replies to every run. */
  method SameForEveryBudget(ops: seq<Op>, budget0: nat, budget1: nat, file0: File, file1: File)
    returns (replies0: seq<Reply>, replies1: seq<Reply>)
    requires file0 != file1 && file0.Sane() && file1.Sane() && file0.Clean() && file1.Clean()
    requires |file0.data| == SUPER && |file1.data| == SUPER
    modifies file0, file1
    ensures replies0 == replies1 == Spec.Run(map[], ops, false).1
  {
    hide Partition, Bytes, Owned, RecsOk, Tier, View;
    var s0 := new Store(file0, budget0);
    ghost var trace0, trace1;
    replies0, trace0 := s0.Run(ops);
    var s1 := new Store(file1, budget1);
    replies1, trace1 := s1.Run(ops);
  }
}
