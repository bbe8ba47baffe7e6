/** The sizes that decide what the store does, as numbers: blocks of 4096 bytes, bounce buffers of
    4194304, extents of at least 65536 and lists of at most 8 (src/internal.h, src/alloc.c:79-131,
    src/store.c:60-72, 279-302). */
module Limits {
  import opened Wrappers
  import opened Disk
  import opened Extents
  import opened Holes
  import opened Allocator
  import opened Records
  import opened Updates

  // ------------------------------------------------------------------ scripts

  /** The three kinds of script that contracts speak of: no call fails, no uncached call is short, and
      every call moves something or nothing but says so. */
  lemma ScriptLaw(file: File)
    ensures file.Clean() <==>
              forall o | o in file.script :: o == Full || (!file.direct && (o == Intr || (o.Part? && o.k > 0)))
    ensures file.Sane() <==> !file.direct || forall o | o in file.script :: o == Full || o == Intr || o == Err
    ensures file.Moving() <==> forall o | o in file.script :: o != Intr && o != Err
  {
  }

  // ------------------------------------------------------------------ windows

  /** One bounce iteration starts at the block its bytes start in, moves as many of them as the
      buffer holds, spans whole blocks and no block more, and reads first unless it covers them. */
  lemma WindowLaw(abs: nat, left: nat)
    requires left > 0
    ensures var w := WindowAt(abs, left);
            && w.base % 4096 == 0 && w.base <= abs < w.base + 4096 && w.skew == abs - w.base
            && w.chunk == (if left < 4194304 - w.skew then left else 4194304 - w.skew)
            && w.span % 4096 == 0 && w.skew + w.chunk <= w.span < w.skew + w.chunk + 4096
            && (ReadFirst(w) <==> abs % 4096 != 0 || (abs + w.chunk) % 4096 != 0)
  {
    var w := WindowAt(abs, left);
    EndOfBlock(w.base, w.skew + w.chunk, w.span);
  }

  lemma EndOfBlock(base: nat, n: nat, span: nat)
    requires base % 4096 == 0 && span % 4096 == 0 && n <= span < n + 4096
    ensures (base + n) % 4096 == 0 <==> span == n
  {
  }

  // ---------------------------------------------------------------- free space

  ghost predicate InHole(fl: seq<Extent>, x: nat) {
    exists i | 0 <= i < |fl| :: fl[i].foff <= x < fl[i].foff + fl[i].len
  }

  ghost predicate InLive(live: set<Extent>, x: nat) {
    exists e | e in live :: e.foff <= x < e.foff + e.len
  }

  /** Every byte between the super block and the end of the heap is in exactly one hole or exactly
      one live extent; holes are whole blocks, sorted, never adjacent and never at the end. */
  lemma PartitionLaw(fl: seq<Extent>, live: set<Extent>, fileEnd: nat)
    requires Partition(fl, live, fileEnd)
    ensures forall x: nat | 4096 <= x < fileEnd :: InHole(fl, x) <==> !InLive(live, x)
    ensures forall d, e | d in live && e in live && d != e :: d.foff + d.len <= e.foff || e.foff + e.len <= d.foff
    ensures forall i, j | 0 <= i < j < |fl| :: fl[i].foff + fl[i].len < fl[j].foff
    ensures forall i | 0 <= i < |fl| ::
              fl[i].foff >= 4096 && fl[i].len > 0 && fl[i].foff % 4096 == 0 && fl[i].len % 4096 == 0
              && fl[i].foff + fl[i].len < fileEnd
    ensures forall e | e in live ::
              e.foff >= 4096 && e.len > 0 && e.foff % 4096 == 0 && e.len % 4096 == 0 && e.foff + e.len <= fileEnd
  {
    forall x: nat | 4096 <= x < fileEnd ensures InHole(fl, x) <==> !InLive(live, x) {
      assert Covers(fl, x) || Held(live, x);
      InEither(fl, live, x);
    }
    forall d, e | d in live && e in live && d != e
      ensures d.foff + d.len <= e.foff || e.foff + e.len <= d.foff
    {
      assert Apart(d, e);
    }
    forall i | 0 <= i < |fl|
      ensures fl[i].foff >= 4096 && fl[i].len > 0 && fl[i].foff % 4096 == 0 && fl[i].len % 4096 == 0
              && fl[i].foff + fl[i].len < fileEnd
    {
      assert Piece(fl[i], fileEnd);
    }
  }

  lemma InEither(fl: seq<Extent>, live: set<Extent>, x: nat)
    ensures Covers(fl, x) ==> InHole(fl, x)
    ensures Held(live, x) ==> InLive(live, x)
  {
    if Covers(fl, x) {
      var i :| 0 <= i < |fl| && Has(fl[i], x);
    }
    if Held(live, x) {
      var e :| e in live && Has(e, x);
    }
  }

  // ---------------------------------------------------------------- allocation

  ghost predicate SomeHole(fl: seq<Extent>, n: nat) {
    exists i | 0 <= i < |fl| :: fl[i].len >= n
  }

  lemma AnyFitsIs(fl: seq<Extent>, n: nat, end: nat)
    requires Pieces(fl, end)
    ensures AnyFits(fl, RoundUp(n)) <==> SomeHole(fl, n)
  {
    hide RoundUp;
    if AnyFits(fl, RoundUp(n)) {
      var h :| h in fl && RoundUp(n) <= h.len;
      var i :| 0 <= i < |fl| && fl[i] == h;
    }
    if SomeHole(fl, n) {
      var i :| 0 <= i < |fl| && fl[i].len >= n;
      assert Piece(fl[i], end);
      AtLeastRounded(n, fl[i].len);
      assert fl[i] in fl;
    }
  }

  lemma AtLeastRounded(n: nat, len: nat)
    requires Aligned(len) && n <= len
    ensures RoundUp(n) <= len
  {
  }

  /** Where the space for a record comes from: the smallest hole that holds what it lacks, to the
      block; else, while it has fewer than seven extents, the largest hole of at least 65536 bytes
      or of what it lacks; else the end of the file. */
  lemma ChoiceLaw(fl: seq<Extent>, fileEnd: nat, e: Extent, count: nat, deficit: nat)
    requires FreeList(fl, fileEnd) && Chosen(fl, fileEnd, e, count, deficit)
    ensures if SomeHole(fl, deficit) then
              && e.len % 4096 == 0 && deficit <= e.len < deficit + 4096
              && exists i | 0 <= i < |fl| ::
                   && fl[i].foff == e.foff && fl[i].len >= e.len
                   && forall j | 0 <= j < |fl| && fl[j].len >= deficit :: fl[i].len <= fl[j].len
            else if count < 7 && SomeHole(fl, if deficit < 65536 then deficit else 65536) then
              e in fl && forall j | 0 <= j < |fl| :: fl[j].len <= e.len
            else e.foff == fileEnd && e.len % 4096 == 0 && deficit <= e.len < deficit + 4096
  {
    hide AnyFits;
    AnyFitsIs(fl, deficit, fileEnd);
    AnyFitsIs(fl, Min(MIN_EXTENT, deficit), fileEnd);
    if SomeHole(fl, deficit) {
      SmallestLaw(fl, fileEnd, e, deficit);
    }
  }

  lemma SmallestLaw(fl: seq<Extent>, fileEnd: nat, e: Extent, deficit: nat)
    requires Pieces(fl, fileEnd) && e.len == RoundUp(deficit) && SmallestFit(fl, e)
    ensures exists i | 0 <= i < |fl| ::
              && fl[i].foff == e.foff && fl[i].len >= e.len
              && forall j | 0 <= j < |fl| && fl[j].len >= deficit :: fl[i].len <= fl[j].len
  {
    hide RoundUp;
    var h :| h in fl && h.foff == e.foff && e.len <= h.len && forall g | g in fl && e.len <= g.len :: h.len <= g.len;
    var i :| 0 <= i < |fl| && fl[i] == h;
    forall j | 0 <= j < |fl| && fl[j].len >= deficit ensures fl[i].len <= fl[j].len {
      assert Piece(fl[j], fileEnd) && fl[j] in fl;
      AtLeastRounded(deficit, fl[j].len);
    }
  }

  /** A record grows to the block, by extents of at least 65536 bytes but for the last, and to no
      more than eight of them or one more than it had. */
  lemma GrowthLaw(a: seq<Extent>, b: seq<Extent>, need: nat)
    requires Grown(a, b, need)
    ensures a <= b && (need <= Total(a) ==> b == a)
    ensures need > Total(a) ==> Total(b) % 4096 == 0 && need <= Total(b) < need + 4096
    ensures forall i | |a| <= i < |b| - 1 :: b[i].len >= 65536
    ensures |b| <= 8 || |b| <= |a| + 1
  {
  }

  // -------------------------------------------------------------- memory tier

  /** Every resident buffer is on the list once, and together they stay within the budget. */
  lemma BudgetLaw(recs: map<Key, Rec>, lru: seq<Key>, resident: nat, budget: nat)
    requires Tier(recs, lru, resident, budget)
    ensures resident <= budget
    ensures forall k :: k in lru <==> k in recs && recs[k].mem.Some?
    ensures forall i, j | 0 <= i < j < |lru| :: lru[i] != lru[j]
    ensures forall i | 0 <= i < |lru| :: |recs[lru[i]].mem.value| <= resident
  {
    forall i | 0 <= i < |lru| ensures |recs[lru[i]].mem.value| <= resident {
      assert lru[i] in lru;
      ResidentWithout(lru, recs, lru[i]);
    }
  }

  /** A record that was evicted took with it every colder one that was neither kept nor busy, and what
      stays, stays in order. */
  lemma EvictionLaw(was: seq<Key>, now: seq<Key>, recs: map<Key, Rec>, keep: Option<Key>)
    requires Evicted(was, now, recs, keep)
    ensures forall i, j | 0 <= i < j < |was| && was[i] !in now && keep != Some(was[j])
                          && (was[j] in recs ==> recs[was[j]].busy == 0) :: was[j] !in now
    ensures forall k | k in now :: k in was
    ensures forall i, j | 0 <= i < j < |was| && was[i] in now && was[j] in now ::
              exists a, b | 0 <= a < b < |now| :: now[a] == was[i] && now[b] == was[j]
  {
    hide Minus;
    var gone: set<Key> :| now == Minus(was, gone) && ColdFirst(was, gone, recs, keep);
    forall k: Key ensures k in now <==> k in was && k !in gone {
      MinusHas(was, gone, k);
    }
    forall i, j | 0 <= i < j < |was| && was[i] in now && was[j] in now
      ensures exists a, b | 0 <= a < b < |now| :: now[a] == was[i] && now[b] == was[j]
    {
      var a, b := MinusOrder(was, gone, i, j);
      assert now[a] == was[i] && now[b] == was[j];
    }
  }
}
