/** The free list: what a sorted, coalesced list of holes says about the heap
    (src/alloc.c:18-77). */
module Holes {
  import opened Disk
  import opened Extents

  predicate Aligned(n: nat) { n % ALIGN == 0 }

  lemma AlignedSum(a: nat, b: nat)
    requires Aligned(a) && Aligned(b)
    ensures Aligned(a + b) && (b <= a ==> Aligned(a - b))
  {
  }

  function RoundUp(n: nat): (r: nat)
    ensures Aligned(r) && n <= r < n + ALIGN
  {
    (n + (ALIGN - 1)) / ALIGN * ALIGN
  }

  /** A non-empty aligned range of the heap `[SUPER, end)`. */
  predicate Piece(e: Extent, end: nat) {
    e.len > 0 && SUPER <= e.foff && Aligned(e.foff) && Aligned(e.len) && End(e) <= end
  }

  /** Sorted by offset, and never adjacent: the list is maximally coalesced. */
  ghost predicate Sorted(fl: seq<Extent>) {
    forall i, j | 0 <= i < j < |fl| :: End(fl[i]) < fl[j].foff
  }

  ghost predicate Pieces(fl: seq<Extent>, end: nat) {
    forall i | 0 <= i < |fl| :: Piece(fl[i], end)
  }

  /** No hole runs to the end of the file: such a hole is given back. */
  ghost predicate TailFree(fl: seq<Extent>, fileEnd: nat) {
    forall i | 0 <= i < |fl| :: End(fl[i]) < fileEnd
  }

  ghost predicate FreeList(fl: seq<Extent>, fileEnd: nat) {
    Pieces(fl, fileEnd) && Sorted(fl) && TailFree(fl, fileEnd)
  }

  ghost predicate Held(live: set<Extent>, x: nat) {
    exists e | e in live :: Has(e, x)
  }

  /** Live extents are pieces of the heap, apart from each other and from every hole. */
  ghost predicate Separate(fl: seq<Extent>, live: set<Extent>, fileEnd: nat) {
    && (forall e | e in live :: Piece(e, fileEnd))
    && (forall a, b | a in live && b in live && a != b :: Apart(a, b))
    && (forall e, i | e in live && 0 <= i < |fl| :: Apart(e, fl[i]))
  }

  /** Holes and live extents partition `[SUPER, fileEnd)`. */
  ghost predicate Partition(fl: seq<Extent>, live: set<Extent>, fileEnd: nat) {
    && SUPER <= fileEnd && Aligned(fileEnd)
    && FreeList(fl, fileEnd)
    && Separate(fl, live, fileEnd)
    && forall x: nat | SUPER <= x < fileEnd :: Covers(fl, x) || Held(live, x)
  }

  /** The bytes held by a set of extents. */
  ghost function Bytes(live: set<Extent>): nat {
    if live == {} then 0 else
      var e :| e in live;
      e.len + Bytes(live - {e})
  }

  lemma {:induction false} BytesRemove(live: set<Extent>, e: Extent)
    requires e in live
    ensures Bytes(live) == Bytes(live - {e}) + e.len
  {
    var d :| d in live && Bytes(live) == d.len + Bytes(live - {d});
    if d != e {
      BytesRemove(live - {d}, e);
      BytesRemove(live - {e}, d);
      assert live - {d} - {e} == live - {e} - {d};
    }
  }

  lemma BytesAdd(live: set<Extent>, e: Extent)
    requires e !in live
    ensures Bytes(live + {e}) == Bytes(live) + e.len
  {
    BytesRemove(live + {e}, e);
    assert live + {e} - {e} == live;
  }

  // ---------------------------------------------------------------- coverage

  lemma CoversAppend(a: seq<Extent>, b: seq<Extent>, x: nat)
    ensures Covers(a + b, x) <==> Covers(a, x) || Covers(b, x)
  {
    if Covers(a, x) {
      var i :| 0 <= i < |a| && Has(a[i], x);
      assert Has((a + b)[i], x);
    }
    if Covers(b, x) {
      var i :| 0 <= i < |b| && Has(b[i], x);
      assert Has((a + b)[|a| + i], x);
    }
  }

  lemma CoversAt(fl: seq<Extent>, i: nat, x: nat)
    requires i < |fl|
    ensures Has(fl[i], x) ==> Covers(fl, x)
  {
  }

  lemma Covers3(a: seq<Extent>, e: Extent, b: seq<Extent>, x: nat)
    ensures Covers(a + [e] + b, x) <==> Covers(a, x) || Has(e, x) || Covers(b, x)
  {
    CoversAppend(a + [e], b, x);
    CoversAppend(a, [e], x);
    assert Has([e][0], x) <==> Covers([e], x);
  }

  lemma Total3(a: seq<Extent>, e: Extent, b: seq<Extent>)
    ensures Total(a + [e] + b) == Total(a) + e.len + Total(b)
  {
    TotalAppend(a + [e], b);
    TotalAppend(a, [e]);
    assert Total([e]) == e.len + Total([]);
  }

  lemma Replace(fl: seq<Extent>, i: nat, e: Extent, x: nat)
    requires i < |fl|
    ensures Covers(fl, x) <==> Covers(fl[..i], x) || Has(fl[i], x) || Covers(fl[i + 1..], x)
    ensures Covers(fl[i := e], x) <==> Covers(fl[..i], x) || Has(e, x) || Covers(fl[i + 1..], x)
    ensures Total(fl) == Total(fl[..i]) + fl[i].len + Total(fl[i + 1..])
    ensures Total(fl[i := e]) == Total(fl[..i]) + e.len + Total(fl[i + 1..])
  {
    hide Total, Covers;
    assert fl == fl[..i] + [fl[i]] + fl[i + 1..];
    assert fl[i := e] == fl[..i] + [e] + fl[i + 1..];
    Covers3(fl[..i], fl[i], fl[i + 1..], x);
    Covers3(fl[..i], e, fl[i + 1..], x);
    Total3(fl[..i], fl[i], fl[i + 1..]);
    Total3(fl[..i], e, fl[i + 1..]);
  }

  /** memmove over entry `i`, and memmove to make room at `i` (src/alloc.c:51, 61). */
  function Removed(fl: seq<Extent>, i: nat): (gl: seq<Extent>)
    requires i < |fl|
    ensures |gl| == |fl| - 1
    ensures forall k | 0 <= k < |gl| :: gl[k] == fl[if k < i then k else k + 1]
  {
    fl[..i] + fl[i + 1..]
  }

  function Added(fl: seq<Extent>, i: nat, e: Extent): (gl: seq<Extent>)
    requires i <= |fl|
    ensures |gl| == |fl| + 1
    ensures forall k | 0 <= k < |gl| :: gl[k] == if k == i then e else fl[if k < i then k else k - 1]
  {
    fl[..i] + [e] + fl[i..]
  }

  lemma Insert(fl: seq<Extent>, i: nat, e: Extent, x: nat)
    requires i <= |fl|
    ensures Covers(Added(fl, i, e), x) <==> Covers(fl, x) || Has(e, x)
    ensures Total(Added(fl, i, e)) == Total(fl) + e.len
  {
    hide Total, Covers;
    assert fl == fl[..i] + fl[i..];
    CoversAppend(fl[..i], fl[i..], x);
    Covers3(fl[..i], e, fl[i..], x);
    TotalAppend(fl[..i], fl[i..]);
    Total3(fl[..i], e, fl[i..]);
  }

  lemma Delete(fl: seq<Extent>, i: nat, x: nat)
    requires i < |fl|
    ensures Covers(fl, x) <==> Covers(Removed(fl, i), x) || Has(fl[i], x)
    ensures Total(fl) == Total(Removed(fl, i)) + fl[i].len
  {
    hide Total, Covers;
    Replace(fl, i, fl[i], x);
    CoversAppend(fl[..i], fl[i + 1..], x);
    TotalAppend(fl[..i], fl[i + 1..]);
  }

  /** A coalesced list is determined by the set of bytes it covers. */
  lemma {:induction false} HolesUnique(f: seq<Extent>, g: seq<Extent>, end: nat)
    requires Pieces(f, end) && Sorted(f) && Pieces(g, end) && Sorted(g)
    requires forall x: nat :: Covers(f, x) <==> Covers(g, x)
    ensures f == g
  {
    if f == [] || g == [] {
      if f != [] { assert Has(f[0], f[0].foff) && Covers(f, f[0].foff); }
      if g != [] { assert Has(g[0], g[0].foff) && Covers(g, g[0].foff); }
    } else {
      FirstHole(f, g, end);
      FirstHole(g, f, end);
      forall x: nat ensures Covers(f[1..], x) <==> Covers(g[1..], x) {
        CoversRest(f, x);
        CoversRest(g, x);
      }
      HolesUnique(f[1..], g[1..], end);
      assert f == [f[0]] + f[1..] && g == [g[0]] + g[1..];
    }
  }

  lemma CoversRest(f: seq<Extent>, x: nat)
    requires f != [] && Sorted(f)
    ensures Covers(f[1..], x) <==> Covers(f, x) && !Has(f[0], x)
  {
    assert f == [f[0]] + f[1..];
    CoversAppend([f[0]], f[1..], x);
    assert Has([f[0]][0], x) <==> Covers([f[0]], x);
  }

  lemma FirstHole(f: seq<Extent>, g: seq<Extent>, end: nat)
    requires f != [] && g != []
    requires Pieces(f, end) && Sorted(f) && Pieces(g, end) && Sorted(g)
    requires forall x: nat :: Covers(f, x) <==> Covers(g, x)
    ensures g[0].foff <= f[0].foff && (g[0].foff == f[0].foff ==> End(g[0]) <= End(f[0]))
  {
    assert Has(f[0], f[0].foff);
    assert Covers(g, f[0].foff);
    assert !Covers(f, End(f[0]));
    assert !Covers(g, End(f[0]));
    assert !Has(g[0], End(f[0]));
  }

  // -------------------------------------------------------------- allocation

  /** The list after the first `n` bytes of hole `i` are handed out (src/alloc.c:98-107). */
  function Carve(fl: seq<Extent>, i: nat, n: nat): seq<Extent>
    requires i < |fl| && n <= fl[i].len
  {
    if fl[i].len == n then Removed(fl, i)
    else fl[i := Extent(fl[i].foff + n, fl[i].len - n)]
  }

  lemma CarveCovers(fl: seq<Extent>, i: nat, n: nat, x: nat)
    requires i < |fl| && n <= fl[i].len
    ensures Covers(fl, x) <==> Covers(Carve(fl, i, n), x) || Has(Extent(fl[i].foff, n), x)
    ensures Total(fl) == Total(Carve(fl, i, n)) + n
  {
    hide Total, Covers;
    Replace(fl, i, Extent(fl[i].foff + n, fl[i].len - n), x);
    Delete(fl, i, x);
  }

  lemma CarveKeeps(fl: seq<Extent>, fileEnd: nat, i: nat, n: nat)
    requires FreeList(fl, fileEnd) && i < |fl| && 0 < n <= fl[i].len && Aligned(n)
    ensures FreeList(Carve(fl, i, n), fileEnd) && Piece(Extent(fl[i].foff, n), fileEnd)
  {
    hide Aligned, Removed;
    AlignedSum(fl[i].foff, n);
    AlignedSum(fl[i].len, n);
  }

  lemma CarveSeparate(fl: seq<Extent>, live: set<Extent>, fileEnd: nat, i: nat, n: nat)
    requires FreeList(fl, fileEnd) && Separate(fl, live, fileEnd)
    requires i < |fl| && 0 < n <= fl[i].len && Piece(Extent(fl[i].foff, n), fileEnd)
    ensures Extent(fl[i].foff, n) !in live
    ensures Separate(Carve(fl, i, n), live + {Extent(fl[i].foff, n)}, fileEnd)
  {
    hide Aligned, Removed;
    var e := Extent(fl[i].foff, n);
    assert !Apart(e, fl[i]);
    assert forall d | d in live :: Apart(d, fl[i]);
    assert forall j | 0 <= j < |fl| && j != i :: Apart(e, fl[j]);
  }

  /** Handing out the front of a hole keeps the partition. */
  lemma CarvePartition(fl: seq<Extent>, live: set<Extent>, fileEnd: nat, i: nat, n: nat)
    requires Partition(fl, live, fileEnd)
    requires i < |fl| && 0 < n <= fl[i].len && Aligned(n)
    ensures Extent(fl[i].foff, n) !in live
    ensures Partition(Carve(fl, i, n), live + {Extent(fl[i].foff, n)}, fileEnd)
  {
    CarveKeeps(fl, fileEnd, i, n);
    CarveSeparate(fl, live, fileEnd, i, n);
    hide FreeList, Separate, Carve, Covers;
    var e := Extent(fl[i].foff, n);
    var gl := Carve(fl, i, n);
    forall x: nat | SUPER <= x < fileEnd ensures Covers(gl, x) || Held(live + {e}, x) {
      CarveCovers(fl, i, n, x);
      if Held(live, x) {
        var d :| d in live && Has(d, x);
        assert d in live + {e};
      } else if Has(e, x) {
        assert e in live + {e};
      }
    }
  }

  lemma TailPartition(fl: seq<Extent>, live: set<Extent>, fileEnd: nat, n: nat)
    requires Partition(fl, live, fileEnd)
    requires 0 < n && Aligned(n)
    ensures Extent(fileEnd, n) !in live
    ensures Partition(fl, live + {Extent(fileEnd, n)}, fileEnd + n)
  {
    var e := Extent(fileEnd, n);
    forall x: nat | SUPER <= x < fileEnd + n ensures Covers(fl, x) || Held(live + {e}, x) {
      if x >= fileEnd {
        assert e in live + {e} && Has(e, x);
      } else if Held(live, x) {
        var d :| d in live && Has(d, x);
        assert d in live + {e};
      }
    }
  }

  // ------------------------------------------------------------------ release

  /** Sorted, except that holes `j` and `j + 1` may touch. */
  ghost predicate SortedBut(fl: seq<Extent>, j: nat) {
    forall a, b | 0 <= a < b < |fl| ::
      if a == j && b == j + 1 then End(fl[a]) <= fl[b].foff else End(fl[a]) < fl[b].foff
  }

  predicate TouchesLeft(fl: seq<Extent>, i: nat, e: Extent)
    requires i <= |fl|
  {
    i > 0 && End(fl[i - 1]) == e.foff
  }

  /** Put `e` at index `i`, or merge it into its left neighbour (src/alloc.c:46-55). */
  function Place(fl: seq<Extent>, i: nat, e: Extent): seq<Extent>
    requires i <= |fl|
  {
    if TouchesLeft(fl, i, e)
    then fl[i - 1 := Extent(fl[i - 1].foff, fl[i - 1].len + e.len)]
    else Added(fl, i, e)
  }

  /** Merge hole `j` with its right neighbour if they touch (src/alloc.c:58-63). */
  function Join(fl: seq<Extent>, j: nat): seq<Extent>
    requires j < |fl|
  {
    if j + 1 < |fl| && End(fl[j]) == fl[j + 1].foff
    then Removed(fl[j := Extent(fl[j].foff, fl[j].len + fl[j + 1].len)], j + 1)
    else fl
  }

  lemma PlaceKeeps(fl: seq<Extent>, i: nat, e: Extent, end: nat)
    requires i <= |fl| && Pieces(fl, end) && Sorted(fl) && Piece(e, end)
    requires forall k | 0 <= k < |fl| :: Apart(e, fl[k])
    requires forall k | 0 <= k < i :: fl[k].foff < e.foff
    requires forall k | i <= k < |fl| :: e.foff <= fl[k].foff
    ensures var j := PlacedAt(fl, i, e);
            j < |Place(fl, i, e)| && SortedBut(Place(fl, i, e), j) && Pieces(Place(fl, i, e), end)
  {
    hide Aligned, Removed, Added;
    forall k | 0 <= k < |fl| ensures if k < i then End(fl[k]) <= e.foff else End(e) <= fl[k].foff {
      assert Piece(fl[k], end) && Apart(e, fl[k]);
    }
    var gl := Place(fl, i, e);
    if TouchesLeft(fl, i, e) {
      AlignedSum(fl[i - 1].len, e.len);
      assert Piece(fl[i - 1], end) && Piece(gl[i - 1], end);
      forall b | i < b < |fl| ensures End(e) < fl[b].foff {
        assert Piece(fl[i], end) && End(fl[i]) < fl[b].foff;
      }
    } else {
      forall a | 0 <= a < i ensures End(fl[a]) < e.foff {
        assert Piece(fl[i - 1], end) && (a < i - 1 ==> End(fl[a]) < fl[i - 1].foff);
      }
      forall b | i < b < |fl| ensures End(e) < fl[b].foff {
        assert Piece(fl[i], end) && End(fl[i]) < fl[b].foff;
      }
    }
  }

  lemma PlaceCovers(fl: seq<Extent>, i: nat, e: Extent, x: nat)
    requires i <= |fl|
    ensures Covers(Place(fl, i, e), x) <==> Covers(fl, x) || Has(e, x)
    ensures Total(Place(fl, i, e)) == Total(fl) + e.len
  {
    hide Total, Covers;
    if TouchesLeft(fl, i, e) {
      Replace(fl, i - 1, Extent(fl[i - 1].foff, fl[i - 1].len + e.len), x);
    } else {
      Insert(fl, i, e, x);
    }
  }

  lemma JoinKeeps(fl: seq<Extent>, j: nat, end: nat)
    requires j < |fl| && Pieces(fl, end) && SortedBut(fl, j)
    ensures Sorted(Join(fl, j)) && Pieces(Join(fl, j), end)
  {
    hide Aligned, Removed, Added;
    if j + 1 < |fl| && End(fl[j]) == fl[j + 1].foff {
      var gl := Join(fl, j);
      AlignedSum(fl[j].len, fl[j + 1].len);
      assert Piece(fl[j], end) && Piece(fl[j + 1], end);
      assert Piece(gl[j], end);
    }
  }

  lemma JoinCovers(fl: seq<Extent>, j: nat, x: nat)
    requires j < |fl|
    ensures Covers(Join(fl, j), x) <==> Covers(fl, x)
    ensures Total(Join(fl, j)) == Total(fl)
  {
    hide Total, Covers, Removed;
    if j + 1 < |fl| && End(fl[j]) == fl[j + 1].foff {
      var ml := fl[j := Extent(fl[j].foff, fl[j].len + fl[j + 1].len)];
      Replace(fl, j, ml[j], x);
      Delete(ml, j + 1, x);
      CoversAt(fl, j + 1, x);
      CoversAt(Join(fl, j), j, x);
    }
  }

  /** Where `Place` leaves the hole that holds `e`. */
  function PlacedAt(fl: seq<Extent>, i: nat, e: Extent): nat
    requires i <= |fl|
  {
    if TouchesLeft(fl, i, e) then i - 1 else i
  }

  /** Placing and joining covers what the list covered and `e`, and is coalesced again. */
  lemma Coalesced(fl: seq<Extent>, fileEnd: nat, i: nat, e: Extent)
    requires i <= |fl| && FreeList(fl, fileEnd) && Piece(e, fileEnd)
    requires forall k | 0 <= k < |fl| :: Apart(e, fl[k])
    requires forall k | 0 <= k < i :: fl[k].foff < e.foff
    requires forall k | i <= k < |fl| :: e.foff <= fl[k].foff
    ensures PlacedAt(fl, i, e) < |Place(fl, i, e)|
    ensures var ml := Join(Place(fl, i, e), PlacedAt(fl, i, e));
            && Pieces(ml, fileEnd) && Sorted(ml)
            && (forall x: nat :: Covers(ml, x) <==> Covers(fl, x) || Has(e, x))
            && Total(ml) == Total(fl) + e.len
  {
    PlaceKeeps(fl, i, e, fileEnd);
    hide Place, Join, Covers, Total;
    var pl := Place(fl, i, e);
    var j := PlacedAt(fl, i, e);
    JoinKeeps(pl, j, fileEnd);
    forall x: nat ensures Covers(Join(pl, j), x) <==> Covers(fl, x) || Has(e, x) {
      PlaceCovers(fl, i, e, x);
      JoinCovers(pl, j, x);
    }
    PlaceCovers(fl, i, e, 0);
    JoinCovers(pl, j, 0);
  }

  predicate EndsAt(fl: seq<Extent>, fileEnd: nat) {
    fl != [] && End(fl[|fl| - 1]) == fileEnd
  }

  /** What inserting `e` into a free list yields: the same bytes and `e`, up to a new end of
      file below which nothing free is left at the end (src/alloc.c:65-75). */
  ghost predicate Inserted(fl: seq<Extent>, fileEnd: nat, e: Extent, gl: seq<Extent>, newEnd: nat) {
    && SUPER <= newEnd <= fileEnd && Aligned(newEnd)
    && FreeList(gl, newEnd)
    && (forall x: nat | x < newEnd :: Covers(gl, x) <==> Covers(fl, x) || Has(e, x))
    && (forall x: nat | newEnd <= x < fileEnd :: Covers(fl, x) || Has(e, x))
    && (if End(e) == fileEnd then newEnd <= e.foff else newEnd == fileEnd)
    && newEnd + Total(fl) + e.len == fileEnd + Total(gl)
  }

  lemma TrimInserted(fl: seq<Extent>, fileEnd: nat, e: Extent, ml: seq<Extent>)
    requires SUPER <= fileEnd && Aligned(fileEnd) && FreeList(fl, fileEnd) && Piece(e, fileEnd)
    requires Pieces(ml, fileEnd) && Sorted(ml)
    requires forall x: nat :: Covers(ml, x) <==> Covers(fl, x) || Has(e, x)
    requires Total(ml) == Total(fl) + e.len
    ensures if EndsAt(ml, fileEnd)
            then Inserted(fl, fileEnd, e, ml[..|ml| - 1], ml[|ml| - 1].foff)
            else Inserted(fl, fileEnd, e, ml, fileEnd)
  {
    LastCovered(fl, fileEnd, e, ml);
    if EndsAt(ml, fileEnd) {
      var last := ml[|ml| - 1];
      var gl := ml[..|ml| - 1];
      assert ml == gl + [last] + [];
      Total3(gl, last, []);
      forall x: nat ensures Covers(ml, x) <==> Covers(gl, x) || Has(last, x) {
        Covers3(gl, last, [], x);
      }
      assert Piece(last, fileEnd);
      assert FreeList(gl, last.foff);
    } else {
      forall i | 0 <= i < |ml| ensures End(ml[i]) < fileEnd {
        assert Piece(ml[i], fileEnd) && Piece(ml[|ml| - 1], fileEnd);
      }
    }
  }

  /** Only a hole that `e` reaches can end at the end of the file. */
  lemma LastCovered(fl: seq<Extent>, fileEnd: nat, e: Extent, ml: seq<Extent>)
    requires FreeList(fl, fileEnd) && Piece(e, fileEnd) && SUPER <= fileEnd
    requires Pieces(ml, fileEnd) && Sorted(ml)
    requires forall x: nat :: Covers(ml, x) <==> Covers(fl, x) || Has(e, x)
    ensures EndsAt(ml, fileEnd) <==> End(e) == fileEnd
    ensures EndsAt(ml, fileEnd) ==> ml[|ml| - 1].foff <= e.foff
  {
    var x := fileEnd - 1;
    assert !Covers(fl, x);
    if EndsAt(ml, fileEnd) {
      assert Piece(ml[|ml| - 1], fileEnd) && Has(ml[|ml| - 1], x);
      assert Covers(ml, x) && Has(e, x);
    }
    if End(e) == fileEnd {
      assert Has(e, x) && Covers(ml, x);
      var i :| 0 <= i < |ml| && Has(ml[i], x);
      assert Piece(ml[i], fileEnd) && Piece(ml[|ml| - 1], fileEnd);
      assert i == |ml| - 1;
      assert !Covers(ml, ml[i].foff - 1);
      assert !Has(e, ml[i].foff - 1);
    }
  }

  /** Releasing a live extent keeps the partition. */
  lemma ReleasePartition(fl: seq<Extent>, live: set<Extent>, fileEnd: nat, e: Extent, gl: seq<Extent>, newEnd: nat)
    requires Partition(fl, live, fileEnd) && e in live
    requires Inserted(fl, fileEnd, e, gl, newEnd)
    ensures Partition(gl, live - {e}, newEnd)
  {
    forall d | d in live - {e} ensures Piece(d, newEnd) {
      assert Piece(d, fileEnd);
      assert Has(d, End(d) - 1);
      OnlyOwner(fl, live, fileEnd, d, e, End(d) - 1);
    }
    forall d, i | d in live - {e} && 0 <= i < |gl| ensures Apart(d, gl[i]) {
      Untouched(fl, live, fileEnd, e, gl, newEnd, d, gl[i], i);
    }
    forall x: nat | SUPER <= x < newEnd ensures Covers(gl, x) || Held(live - {e}, x) {
      if !Covers(gl, x) {
        var d :| d in live && Has(d, x);
        assert d in live - {e};
      }
    }
  }

  lemma Untouched(fl: seq<Extent>, live: set<Extent>, fileEnd: nat, e: Extent, gl: seq<Extent>, newEnd: nat,
                  d: Extent, h: Extent, i: nat)
    requires Partition(fl, live, fileEnd) && e in live && d in live && d != e
    requires Inserted(fl, fileEnd, e, gl, newEnd)
    requires i < |gl| && gl[i] == h
    ensures Apart(d, h)
  {
    var x := Max(d.foff, h.foff);
    assert Piece(h, newEnd) && Piece(d, fileEnd);
    OnlyOwner(fl, live, fileEnd, d, e, x);
    CoversAt(gl, i, x);
    assert !(Has(d, x) && Has(h, x));
  }

  /** A byte of one live extent lies in no hole and in no other live extent. */
  lemma OnlyOwner(fl: seq<Extent>, live: set<Extent>, fileEnd: nat, d: Extent, e: Extent, x: nat)
    requires Partition(fl, live, fileEnd) && e in live && d in live && d != e
    ensures Has(d, x) ==> !Covers(fl, x) && !Has(e, x)
  {
    assert Apart(d, e) && Piece(d, fileEnd) && Piece(e, fileEnd);
    assert forall i | 0 <= i < |fl| :: Apart(d, fl[i]) && Piece(fl[i], fileEnd);
  }

  /** With nothing live there is nothing left: freeing everything, in any order, gives the
      whole file back. */
  lemma NothingLive(fl: seq<Extent>, fileEnd: nat)
    requires Partition(fl, {}, fileEnd)
    ensures fl == [] && fileEnd == SUPER
  {
    var x := fileEnd - 1;
    assert !Covers(fl, x) && !Held({}, x);
    assert fl != [] ==> Piece(fl[0], fileEnd);
  }
}
