/** The extent allocator (src/alloc.c). */
module Allocator {
  import opened Wrappers
  import opened Disk
  import opened Extents
  import opened Holes

  const MIN_EXTENT: nat := 65536
  const MAX_EXTENTS: nat := 8

  /** The file after the allocator may have cut it back to `end`. */
  ghost predicate Cut(f: seq<byte>, g: seq<byte>, end: nat) {
    (g == f || |g| == end) && forall i: nat | i < end :: At(g, i) == At(f, i)
  }

  ghost predicate Distinct<T>(s: seq<T>) {
    forall i, j | 0 <= i < j < |s| :: s[i] != s[j]
  }

  ghost predicate AnyFits(fl: seq<Extent>, need: nat) {
    exists h | h in fl :: need <= h.len
  }

  /** `e` is the front of a smallest hole that can hold it. */
  ghost predicate SmallestFit(fl: seq<Extent>, e: Extent) {
    exists h | h in fl :: h.foff == e.foff && e.len <= h.len && forall g | g in fl && e.len <= g.len :: h.len <= g.len
  }

  ghost predicate LargestHole(fl: seq<Extent>, e: Extent) {
    e in fl && forall h | h in fl :: h.len <= e.len
  }

  /** The file grows only when no hole finishes the job and none is worth taking. */
  ghost predicate Chosen(fl: seq<Extent>, fileEnd: nat, e: Extent, count: nat, deficit: nat) {
    if AnyFits(fl, RoundUp(deficit)) then e.len == RoundUp(deficit) && SmallestFit(fl, e)
    else if count + 1 < MAX_EXTENTS && AnyFits(fl, RoundUp(Min(MIN_EXTENT, deficit))) then LargestHole(fl, e)
    else e == Extent(fileEnd, RoundUp(deficit))
  }

  class ExtentHeap {
    const file: File
    var fl: seq<Extent>
    var fileEnd: nat
    ghost var live: set<Extent>

    /** Holes and live extents partition the heap, and their bytes add up to it. */
    ghost predicate Valid()
      reads this
    {
      Partition(fl, live, fileEnd) && SUPER + Bytes(live) + Total(fl) == fileEnd
    }

    constructor (file: File)
      ensures this.file == file && fl == [] && fileEnd == SUPER && live == {}
      ensures Valid()
    {
      this.file, fl, fileEnd, live := file, [], SUPER, {};
    }

    /** The state a reopened store is given: no holes yet, every persisted extent live. */
    constructor Reopened(file: File, fileEnd: nat, ghost live: set<Extent>)
      ensures this.file == file && fl == [] && this.fileEnd == fileEnd && this.live == live
    {
      this.file, this.fl, this.fileEnd, this.live := file, [], fileEnd, live;
    }

    /** ls_alloc_best: the smallest hole that covers `need`, split to size. */
    method Best(need: nat) returns (r: Option<Extent>)
      requires Valid()
      modifies this`fl, this`live
      ensures Valid()
      ensures r.None? ==> fl == old(fl) && live == old(live)
      ensures r.None? <==> need == 0 || !AnyFits(old(fl), RoundUp(need))
      ensures r.Some? ==> r.value.len == RoundUp(need) && SmallestFit(old(fl), r.value)
      ensures r.Some? ==> r.value !in old(live) && live == old(live) + {r.value}
    {
      hide Partition;
      var size := RoundUp(need);
      if size == 0 {
        return None;
      }
      var best: Option<nat> := None;
      var i := 0;
      while i < |fl|
        invariant 0 <= i <= |fl|
        invariant best.None? ==> forall k | 0 <= k < i :: fl[k].len < size
        invariant best.Some? ==> best.value < |fl| && size <= fl[best.value].len
        invariant best.Some? ==> forall k | 0 <= k < i && size <= fl[k].len :: fl[best.value].len <= fl[k].len
      {
        if fl[i].len >= size && (best.None? || fl[i].len < fl[best.value].len) {
          best := Some(i);
        }
        i := i + 1;
      }
      if best.None? {
        return None;
      }
      var b := best.value;
      assert fl[b] in fl;
      CarvePartition(fl, live, fileEnd, b, size);
      CarveCovers(fl, b, size, 0);
      var e := Extent(fl[b].foff, size);
      BytesAdd(live, e);
      if fl[b].len == size {
        fl := Removed(fl, b);
      } else {
        fl := fl[b := Extent(fl[b].foff + size, fl[b].len - size)];
      }
      live := live + {e};
      return Some(e);
    }

    /** ls_alloc_largest: the largest hole, taken whole, if it is worth having. */
    method Largest(least: nat) returns (r: Option<Extent>)
      requires Valid()
      modifies this`fl, this`live
      ensures Valid()
      ensures r.None? ==> fl == old(fl) && live == old(live)
      ensures r.None? <==> !AnyFits(old(fl), RoundUp(least))
      ensures r.Some? ==> LargestHole(old(fl), r.value)
      ensures r.Some? ==> r.value !in old(live) && live == old(live) + {r.value}
    {
      hide Removed, Total, Bytes;
      var big: Option<nat> := None;
      var i := 0;
      while i < |fl|
        invariant 0 <= i <= |fl|
        invariant big.None? ==> i == 0
        invariant big.Some? ==> big.value < |fl| && forall k | 0 <= k < i :: fl[k].len <= fl[big.value].len
      {
        if big.None? || fl[i].len > fl[big.value].len {
          big := Some(i);
        }
        i := i + 1;
      }
      if big.None? || fl[big.value].len < RoundUp(least) {
        return None;
      }
      var b := big.value;
      var e := fl[b];
      assert Piece(e, fileEnd);
      hide Partition;
      assert e == Extent(e.foff, e.len) && Carve(fl, b, e.len) == Removed(fl, b);
      CarvePartition(fl, live, fileEnd, b, e.len);
      CarveCovers(fl, b, e.len, 0);
      BytesAdd(live, e);
      fl := Removed(fl, b);
      live := live + {e};
      return Some(e);
    }

    /** ls_alloc_tail: fresh space past the end of the file. */
    method Tail(need: nat) returns (e: Extent)
      requires Valid() && need > 0
      modifies this`fileEnd, this`live
      ensures Valid()
      ensures e == Extent(old(fileEnd), RoundUp(need)) && fileEnd == End(e)
      ensures e !in old(live) && live == old(live) + {e}
    {
      hide Partition, Bytes, Total;
      e := Extent(fileEnd, RoundUp(need));
      TailPartition(fl, live, fileEnd, e.len);
      BytesAdd(live, e);
      fileEnd := fileEnd + e.len;
      live := live + {e};
    }

    /** Space for a record that already has `count` extents and lacks `deficit` bytes: a hole
        that finishes the job, else the largest hole worth having while the list stays short,
        else fresh space (src/store.c:290-293). */
    method Allocate(count: nat, deficit: nat) returns (e: Extent)
      requires Valid() && deficit > 0
      modifies this`fl, this`fileEnd, this`live
      ensures Valid()
      ensures e !in old(live) && live == old(live) + {e} && Piece(e, fileEnd)
      ensures fileEnd == old(fileEnd) || (e == Extent(old(fileEnd), RoundUp(deficit)) && fileEnd == End(e))
      ensures GoodSize(e, count, deficit) && Chosen(old(fl), old(fileEnd), e, count, deficit)
    {
      hide Partition, Bytes, Total;
      var r := Best(deficit);
      if r.Some? {
        e := r.value;
      } else {
        if count + 1 < MAX_EXTENTS {
          r := Largest(Min(MIN_EXTENT, deficit));
        }
        if r.Some? {
          e := r.value;
          assert e.len < RoundUp(deficit);
        } else {
          e := Tail(deficit);
        }
      }
      LivePiece(fl, live, fileEnd, e);
    }

    /** The list part of fl_insert: find the place, coalesce with either neighbour. */
    method Coalesce(e: Extent)
      requires FreeList(fl, fileEnd) && Piece(e, fileEnd)
      requires forall i | 0 <= i < |fl| :: Apart(e, fl[i])
      modifies this`fl
      ensures Pieces(fl, fileEnd) && Sorted(fl)
      ensures forall x: nat :: Covers(fl, x) <==> Covers(old(fl), x) || Has(e, x)
      ensures Total(fl) == Total(old(fl)) + e.len
    {
      hide Covers, Total, Pieces, Sorted, Place, PlacedAt, Join;
      var i: nat := 0;
      while i < |fl| && fl[i].foff < e.foff
        invariant i <= |fl|
        invariant forall k | 0 <= k < i :: fl[k].foff < e.foff
      {
        i := i + 1;
      }
      SortedFrom(fl, fileEnd, i, e.foff);
      Coalesced(fl, fileEnd, i, e);
      i := MergeLeft(i, e);
      MergeRight(i);
    }

    /** The new hole joins the one before it, or opens a place of its own. */
    method MergeLeft(i: nat, e: Extent) returns (j: nat)
      requires i <= |fl|
      modifies this`fl
      ensures fl == Place(old(fl), i, e) && j == PlacedAt(old(fl), i, e)
    {
      if i > 0 && End(fl[i - 1]) == e.foff {
        fl := fl[i - 1 := Extent(fl[i - 1].foff, fl[i - 1].len + e.len)];
        return i - 1;
      }
      fl := Added(fl, i, e);
      return i;
    }

    method MergeRight(i: nat)
      requires i < |fl|
      modifies this`fl
      ensures fl == Join(old(fl), i)
    {
      if i + 1 < |fl| && End(fl[i]) == fl[i + 1].foff {
        fl := fl[i := Extent(fl[i].foff, fl[i].len + fl[i + 1].len)];
        fl := Removed(fl, i + 1);
      }
    }

    /** fl_insert: coalesce, then give a free tail back to the filesystem. A truncation that
        fails is only reported. */
    method Insert(e: Extent)
      requires file.Sane()
      requires SUPER <= fileEnd && Aligned(fileEnd) && FreeList(fl, fileEnd)
      requires e.len == 0 || (Piece(e, fileEnd) && forall i | 0 <= i < |fl| :: Apart(e, fl[i]))
      modifies this`fl, this`fileEnd, file
      ensures file.Sane() && (old(file.Clean()) ==> file.Clean())
      ensures if e.len == 0 then fl == old(fl) && fileEnd == old(fileEnd)
              else Inserted(old(fl), old(fileEnd), e, fl, fileEnd)
      ensures Cut(old(file.data), file.data, fileEnd)
      ensures e.len == 0 || End(e) < old(fileEnd) ==> file.data == old(file.data)
      ensures fileEnd < old(fileEnd) ==>
                if Granted(old(file.script)) then |file.data| == fileEnd else file.data == old(file.data)
    {
      if e.len == 0 {
        return;
      }
      hide Covers, Total, Sorted;
      Coalesce(e);
      TrimInserted(old(fl), fileEnd, e, fl);
      if |fl| > 0 && End(fl[|fl| - 1]) == fileEnd {
        assert Piece(fl[|fl| - 1], fileEnd);
        fileEnd := fl[|fl| - 1].foff;
        fl := fl[..|fl| - 1];
        var _ := file.Truncate(fileEnd);
      }
    }

    /** ls_free_extents for one live extent. */
    method Free(e: Extent)
      requires Valid() && file.Sane() && e in live
      modifies this, file
      ensures Valid() && file.Sane() && (old(file.Clean()) ==> file.Clean())
      ensures live == old(live) - {e}
      ensures fileEnd <= old(fileEnd) && (End(e) == old(fileEnd) ==> fileEnd <= e.foff)
      ensures Cut(old(file.data), file.data, fileEnd)
      ensures fileEnd < old(fileEnd) ==>
                if Granted(old(file.script)) then |file.data| == fileEnd else file.data == old(file.data)
    {
      hide Inserted, Cut, Covers, Total, Bytes;
      assert Piece(e, fileEnd);
      Insert(e);
      ReleasePartition(old(fl), live, old(fileEnd), e, fl, fileEnd);
      BytesRemove(live, e);
      InsertedTotal(old(fl), old(fileEnd), e, fl, fileEnd);
      live := live - {e};
    }

    /** ls_free_extents: any list of live extents. Freeing all of them, in any order, returns
        the whole heap. */
    method FreeAll(es: seq<Extent>)
      requires Valid() && file.Sane()
      requires Distinct(es) && forall i | 0 <= i < |es| :: es[i] in live
      modifies this, file
      ensures Valid() && file.Sane() && (old(file.Clean()) ==> file.Clean())
      ensures live == old(live) - (set e | e in es)
      ensures fileEnd <= old(fileEnd)
      ensures forall i: nat | i < fileEnd :: At(file.data, i) == At(old(file.data), i)
      ensures |old(file.data)| >= old(fileEnd) ==> |file.data| >= fileEnd
      ensures (set e | e in es) == old(live) ==> fl == [] && fileEnd == SUPER
      ensures es == [] ==> file.data == old(file.data) && file.script == old(file.script) && fileEnd == old(fileEnd)
    {
      hide Bytes, Total, Partition, Cut, At;
      var i: nat := 0;
      while i < |es|
        invariant i <= |es|
        invariant Valid() && file.Sane() && (old(file.Clean()) ==> file.Clean())
        invariant live == old(live) - (set e | e in es[..i])
        invariant fileEnd <= old(fileEnd)
        invariant forall i: nat | i < fileEnd :: At(file.data, i) == At(old(file.data), i)
        invariant |old(file.data)| >= old(fileEnd) ==> |file.data| >= fileEnd
        invariant i == 0 ==> file.data == old(file.data) && file.script == old(file.script) && fileEnd == old(fileEnd)
      {
        assert es[i] !in es[..i];
        assert es[..i + 1] == es[..i] + [es[i]];
        ghost var before, end := file.data, fileEnd;
        Free(es[i]);
        CutKeeps(before, file.data, end, fileEnd);
        i := i + 1;
      }
      assert es[..i] == es;
      if (set e | e in es) == old(live) {
        assert live == {};
        NothingLive(fl, fileEnd);
      }
    }

    /** ls_alloc_live: what is neither super block nor hole is the live extents. */
    method Live() returns (n: int)
      requires Valid()
      ensures n == Bytes(live)
    {
      var hole: nat := 0;
      var i: nat := 0;
      while i < |fl|
        invariant i <= |fl| && hole == Total(fl[..i])
      {
        TotalTake(fl, i);
        hole := hole + fl[i].len;
        i := i + 1;
      }
      assert fl[..i] == fl;
      n := fileEnd - SUPER - hole;
    }
  }

  /** Either the extent completes the record exactly, or it is a whole hole of at least
      `MIN_EXTENT` taken while the list is short. */
  ghost predicate GoodSize(e: Extent, count: nat, deficit: nat) {
    || e.len == RoundUp(deficit)
    || (count + 1 < MAX_EXTENTS && MIN_EXTENT <= e.len < RoundUp(deficit))
  }

  lemma LivePiece(fl: seq<Extent>, live: set<Extent>, fileEnd: nat, e: Extent)
    requires Partition(fl, live, fileEnd) && e in live
    ensures Piece(e, fileEnd)
  {
  }

  lemma SortedFrom(fl: seq<Extent>, fileEnd: nat, i: nat, foff: nat)
    requires FreeList(fl, fileEnd) && i <= |fl| && (i < |fl| ==> foff <= fl[i].foff)
    ensures forall k | i <= k < |fl| :: foff <= fl[k].foff
  {
  }

  lemma InsertedTotal(fl: seq<Extent>, fileEnd: nat, e: Extent, gl: seq<Extent>, newEnd: nat)
    requires Inserted(fl, fileEnd, e, gl, newEnd)
    ensures newEnd + Total(fl) + e.len == fileEnd + Total(gl)
    ensures newEnd <= fileEnd && (End(e) == fileEnd ==> newEnd <= e.foff)
  {
  }

  lemma CutKeeps(f: seq<byte>, g: seq<byte>, end: nat, newEnd: nat)
    requires Cut(f, g, newEnd) && newEnd <= end
    ensures forall i: nat | i < newEnd :: At(g, i) == At(f, i)
    ensures |f| >= end ==> |g| >= newEnd
  {
  }
}
