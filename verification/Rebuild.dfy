/** The free list of a reopened store, reconstructed from the gaps between live extents
    (src/open.c:236-278). */
module Rebuild {
  import opened Extents
  import opened Holes
  import opened Allocator

  /** qsort by offset. */
  function InsertSorted(e: Extent, s: seq<Extent>): seq<Extent> {
    if s == [] || e.foff <= s[0].foff then [e] + s else [s[0]] + InsertSorted(e, s[1..])
  }

  function ByOffset(s: seq<Extent>): seq<Extent> {
    if s == [] then [] else InsertSorted(s[0], ByOffset(s[1..]))
  }

  ghost predicate Ordered(s: seq<Extent>) {
    forall i, j | 0 <= i < j < |s| :: s[i].foff <= s[j].foff
  }

  lemma {:induction false} InsertCount(e: Extent, s: seq<Extent>)
    ensures multiset(InsertSorted(e, s)) == multiset(s) + multiset{e}
  {
    if s == [] || e.foff <= s[0].foff {
    } else {
      InsertCount(e, s[1..]);
      assert s == [s[0]] + s[1..];
    }
  }

  lemma {:induction false} InsertOrdered(e: Extent, s: seq<Extent>)
    requires Ordered(s)
    ensures Ordered(InsertSorted(e, s))
    ensures forall d | d in InsertSorted(e, s) :: d == e || d in s
  {
    if s == [] || e.foff <= s[0].foff {
    } else {
      InsertOrdered(e, s[1..]);
      var t := InsertSorted(e, s[1..]);
      forall i | 0 <= i < |t| ensures s[0].foff <= t[i].foff {
        assert t[i] in t;
      }
    }
  }

  lemma {:induction false} OffsetsOrdered(s: seq<Extent>)
    ensures Ordered(ByOffset(s)) && multiset(ByOffset(s)) == multiset(s)
  {
    if s != [] {
      OffsetsOrdered(s[1..]);
      InsertOrdered(s[0], ByOffset(s[1..]));
      InsertCount(s[0], ByOffset(s[1..]));
      assert s == [s[0]] + s[1..];
    }
  }

  /** Each extent ends before the next begins. */
  ghost predicate Chained(s: seq<Extent>) {
    forall i, j | 0 <= i < j < |s| :: End(s[i]) <= s[j].foff
  }

  lemma SameMembers<T>(a: seq<T>, b: seq<T>)
    requires multiset(a) == multiset(b)
    ensures forall x :: x in a <==> x in b
  {
    forall x ensures x in a <==> x in b {
      assert x in a <==> x in multiset(a);
      assert x in b <==> x in multiset(b);
    }
  }

  lemma {:induction false} DistinctCount<T>(a: seq<T>, x: T)
    requires Distinct(a)
    ensures multiset(a)[x] <= 1
  {
    if a != [] {
      assert a == [a[0]] + a[1..];
      DistinctCount(a[1..], x);
      if x == a[0] {
        assert x !in a[1..];
        assert x !in multiset(a[1..]);
      }
    }
  }

  lemma CountDistinct<T>(a: seq<T>)
    requires forall x :: multiset(a)[x] <= 1
    ensures Distinct(a)
  {
    forall i, j | 0 <= i < j < |a| ensures a[i] != a[j] {
      assert a == a[..j] + a[j..];
      assert a[i] in a[..j] && a[j] in a[j..];
      assert a[i] in multiset(a[..j]) && a[j] in multiset(a[j..]);
      assert multiset(a) == multiset(a[..j]) + multiset(a[j..]);
      assert multiset(a)[a[i]] == multiset(a[..j])[a[i]] + multiset(a[j..])[a[i]];
    }
  }

  lemma SortedChained(all: seq<Extent>, live: set<Extent>, fl: seq<Extent>, fileEnd: nat)
    requires Separate(fl, live, fileEnd) && Distinct(all) && forall e :: e in live <==> e in all
    ensures Chained(ByOffset(all)) && forall e :: e in live <==> e in ByOffset(all)
  {
    hide ByOffset;
    OffsetsOrdered(all);
    var s := ByOffset(all);
    SameMembers(all, s);
    forall x ensures multiset(s)[x] <= 1 {
      DistinctCount(all, x);
    }
    CountDistinct(s);
    forall i, j | 0 <= i < j < |s| ensures End(s[i]) <= s[j].foff {
      assert s[i] in live && s[j] in live && s[i] != s[j];
      assert Apart(s[i], s[j]) && Piece(s[i], fileEnd) && Piece(s[j], fileEnd);
    }
  }

  /** The holes found so far are the gaps of the heap below `cur`. */
  ghost predicate Gaps(fl: seq<Extent>, s: seq<Extent>, cur: nat) {
    forall x: nat :: Covers(fl, x) <==> SUPER <= x < cur && !Covers(s, x)
  }

  lemma GapsBelow(fl: seq<Extent>, s: seq<Extent>, cur: nat, fileEnd: nat, e: Extent)
    requires FreeList(fl, fileEnd) && Gaps(fl, s, cur) && cur <= e.foff
    ensures forall k | 0 <= k < |fl| :: Apart(e, fl[k])
  {
    forall k | 0 <= k < |fl| ensures Apart(e, fl[k]) {
      assert Piece(fl[k], fileEnd);
      assert Has(fl[k], End(fl[k]) - 1);
      assert Covers(fl, End(fl[k]) - 1);
    }
  }

  lemma NextGap(fl: seq<Extent>, gl: seq<Extent>, s: seq<Extent>, cur: nat, e: Extent, fileEnd: nat)
    requires Gaps(fl, s, cur) && SUPER <= cur <= e.foff && e.len > 0 && End(e) <= fileEnd
    requires forall i | 0 <= i < |s| :: End(s[i]) <= cur
    requires if e.foff == cur then gl == fl
             else Inserted(fl, fileEnd, Extent(cur, e.foff - cur), gl, fileEnd)
    ensures Gaps(gl, s + [e], End(e))
  {
    forall x: nat ensures Covers(gl, x) <==> SUPER <= x < End(e) && !Covers(s + [e], x) {
      CoversAppend(s, [e], x);
      assert Has([e][0], x) <==> Covers([e], x);
      assert x >= cur ==> !Covers(s, x);
      if e.foff != cur {
        assert x >= fileEnd ==> !Covers(gl, x);
      }
    }
  }

  /** All gaps together are exactly the free list of the partition. */
  lemma GapsAreHoles(gl: seq<Extent>, fl: seq<Extent>, s: seq<Extent>, live: set<Extent>, cur: nat, fileEnd: nat)
    requires Partition(fl, live, fileEnd) && FreeList(gl, fileEnd) && Gaps(gl, s, cur)
    requires forall e :: e in live <==> e in s
    requires SUPER <= cur <= fileEnd && forall i | 0 <= i < |s| :: End(s[i]) <= cur
    ensures gl == fl
  {
    forall x: nat ensures Covers(s, x) <==> Held(live, x) {
      if Held(live, x) {
        var e :| e in live && Has(e, x);
        var i :| 0 <= i < |s| && s[i] == e;
      }
    }
    assert !Covers(fl, fileEnd - 1);
    assert fileEnd > SUPER ==> Covers(s, fileEnd - 1);
    assert cur == fileEnd;
    forall x: nat ensures Covers(gl, x) <==> Covers(fl, x) {
      FreeOrHeld(fl, live, fileEnd, x);
    }
    HolesUnique(gl, fl, fileEnd);
  }

  lemma FreeOrHeld(fl: seq<Extent>, live: set<Extent>, fileEnd: nat, x: nat)
    requires Partition(fl, live, fileEnd)
    ensures Covers(fl, x) <==> SUPER <= x < fileEnd && !Held(live, x)
  {
    if Covers(fl, x) {
      var i :| 0 <= i < |fl| && Has(fl[i], x);
      assert Piece(fl[i], fileEnd);
      assert forall e | e in live :: Apart(e, fl[i]) && Piece(e, fileEnd);
      assert !Held(live, x);
    }
  }

  /** One turn of the loop: free the gap before the next extent. */
  method FreeGap(heap: ExtentHeap, s: seq<Extent>, cur: nat, e: Extent)
    requires heap.file.Sane() && SUPER <= cur <= e.foff && Aligned(cur) && Piece(e, heap.fileEnd)
    requires Aligned(heap.fileEnd) && FreeList(heap.fl, heap.fileEnd) && Gaps(heap.fl, s, cur)
    requires forall k | 0 <= k < |s| :: End(s[k]) <= cur
    modifies heap`fl, heap`fileEnd, heap.file
    ensures heap.fileEnd == old(heap.fileEnd) && heap.file.data == old(heap.file.data)
    ensures heap.file.Sane() && (old(heap.file.Clean()) ==> heap.file.Clean())
    ensures FreeList(heap.fl, heap.fileEnd) && Gaps(heap.fl, s + [e], End(e)) && Aligned(End(e))
  {
    hide Covers, Total, Gaps, Inserted, Sorted;
    if e.foff > cur {
      var hole := Extent(cur, e.foff - cur);
      AlignedSum(e.foff, cur);
      GapsBelow(heap.fl, s, cur, heap.fileEnd, hole);
      heap.Insert(hole);
      InsertedKeeps(old(heap.fl), old(heap.fileEnd), hole, heap.fl, heap.fileEnd);
    }
    NextGap(old(heap.fl), heap.fl, s, cur, e, heap.fileEnd);
    AlignedSum(e.foff, e.len);
  }

  /** rebuild_free_list on a heap whose live extents were written by a store with free list
      `fl`: no overlap is found, and hole for hole the list is `fl` again. */
  method RebuildFreeList(heap: ExtentHeap, all: seq<Extent>, ghost fl: seq<Extent>) returns (ok: bool)
    requires heap.file.Sane() && heap.fl == [] && Partition(fl, heap.live, heap.fileEnd)
    requires Distinct(all) && forall e :: e in heap.live <==> e in all
    modifies heap`fl, heap`fileEnd, heap.file
    ensures ok && heap.fl == fl && heap.fileEnd == old(heap.fileEnd)
    ensures heap.file.data == old(heap.file.data)
    ensures heap.file.Sane() && (old(heap.file.Clean()) ==> heap.file.Clean())
  {
    hide Covers, Held, Total, Gaps, ByOffset, Distinct, Separate, Chained, FreeList;
    if all == [] {
      NothingIn(heap.live, all);
      NothingLive(fl, heap.fileEnd);
      return true;
    }
    var s := ByOffset(all);
    SortedChained(all, heap.live, fl, heap.fileEnd);
    SortedPieces(s, heap.live, fl, heap.fileEnd);
    var cur := SUPER;
    var i: nat := 0;
    NoGaps(s, heap.fileEnd);
    while i < |s|
      invariant i <= |s| && SUPER <= cur <= heap.fileEnd == old(heap.fileEnd) && Aligned(cur)
      invariant forall k | 0 <= k < i :: End(s[k]) <= cur
      invariant i < |s| ==> cur <= s[i].foff
      invariant FreeList(heap.fl, heap.fileEnd) && Gaps(heap.fl, s[..i], cur)
      invariant heap.file.data == old(heap.file.data)
      invariant heap.file.Sane() && (old(heap.file.Clean()) ==> heap.file.Clean())
    {
      if s[i].foff < cur {
        return false;
      }
      FreeGap(heap, s[..i], cur, s[i]);
      cur := s[i].foff + s[i].len;
      assert s[..i] + [s[i]] == s[..i + 1];
      i := i + 1;
    }
    assert s[..|s|] == s;
    GapsAreHoles(heap.fl, fl, s, heap.live, cur, heap.fileEnd);
    return true;
  }

  lemma SortedPieces(s: seq<Extent>, live: set<Extent>, fl: seq<Extent>, fileEnd: nat)
    requires Chained(s) && Separate(fl, live, fileEnd) && forall e :: e in live <==> e in s
    ensures forall k | 0 <= k < |s| :: Piece(s[k], fileEnd)
    ensures forall i, j | 0 <= i < j < |s| :: End(s[i]) <= s[j].foff && End(s[i]) <= End(s[j])
  {
    forall k | 0 <= k < |s| ensures Piece(s[k], fileEnd) {
      assert s[k] in s;
    }
  }

  lemma NothingIn(live: set<Extent>, all: seq<Extent>)
    requires all == [] && forall e :: e in live <==> e in all
    ensures live == {}
  {
  }

  lemma NoGaps(s: seq<Extent>, fileEnd: nat)
    ensures Gaps([], s[..0], SUPER) && FreeList([], fileEnd)
  {
  }

  lemma InsertedKeeps(fl: seq<Extent>, fileEnd: nat, e: Extent, gl: seq<Extent>, newEnd: nat)
    requires Inserted(fl, fileEnd, e, gl, newEnd) && End(e) < fileEnd
    ensures newEnd == fileEnd && FreeList(gl, fileEnd)
  {
  }
}
