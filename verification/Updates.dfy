/** How each step of a store's methods changes the whole table of records: value lemmas, used by
    the class in Store.dfy. */
module Updates {
  import opened Wrappers
  import opened Disk
  import opened Extents
  import opened Holes
  import opened Allocator
  import opened Records
  import opened Spec

  lemma PartitionSeparate(fl: seq<Extent>, live: set<Extent>, fileEnd: nat)
    requires Partition(fl, live, fileEnd)
    ensures Separate(fl, live, fileEnd)
  {
  }

  /** A file change that no record can see. */
  lemma Unchanged(recs: map<Key, Rec>, f: seq<byte>, g: seq<byte>)
    requires RecsOk(recs, f)
    requires forall j | j in recs :: SameOn(f, g, recs[j].ext)
    ensures RecsOk(recs, g) && View(recs, g) == View(recs, f)
  {
    forall j | j in recs ensures RecOk(recs[j], g) && Content(recs[j], g) == Content(recs[j], f) {
      SameRec(recs[j], f, g);
    }
  }

  lemma Pushed(recs: map<Key, Rec>, k: Key, e: Extent, f: seq<byte>, g: seq<byte>)
    requires RecsOk(recs, f) && k in recs
    requires forall j | j in recs :: SameOn(f, g, recs[j].ext)
    requires Wrote(f, g, e.foff, Zeros(e.len))
    ensures var q := recs[k].(ext := recs[k].ext + [e]);
            RecsOk(recs[k := q], g) && View(recs[k := q], g) == View(recs, f)
    ensures Total(recs[k].ext + [e]) == Total(recs[k].ext) + e.len
  {
    Unchanged(recs, f, g);
    PushRec(recs[k], e, f, g);
  }

  lemma CutGrows(f: seq<byte>, g: seq<byte>, start: nat, end: nat, newEnd: nat, e: Extent)
    requires Cut(f, g, newEnd) && start <= |f| && newEnd <= end
    requires end == start || (e.foff == start && end == End(e) && newEnd <= e.foff)
    ensures newEnd <= |g| && forall i: nat | i < newEnd :: At(g, i) == At(f, i)
  {
  }

  // -------------------------------------------------------------- growth bound

  /** What growth leaves: exactly the rounded capacity, every added extent but the last of at
      least `MIN_EXTENT`, and a short list. */
  ghost predicate Grown(a: seq<Extent>, b: seq<Extent>, need: nat) {
    && a <= b
    && (if need <= Total(a) then b == a else Total(b) == RoundUp(need))
    && (forall i | |a| <= i < |b| - 1 :: MIN_EXTENT <= b[i].len)
    && |b| <= Max(MAX_EXTENTS, |a| + 1)
  }

  /** Part way: still short, or exactly there. */
  ghost predicate Growing(a: seq<Extent>, b: seq<Extent>, need: nat) {
    if Total(b) < need then
      && a <= b
      && (forall i | |a| <= i < |b| :: MIN_EXTENT <= b[i].len)
      && (b == a || |b| < MAX_EXTENTS)
    else Grown(a, b, need)
  }

  lemma GrowStart(a: seq<Extent>, need: nat)
    ensures Growing(a, a, need)
  {
  }

  lemma GrowDone(a: seq<Extent>, b: seq<Extent>, need: nat)
    requires Growing(a, b, need) && need <= Total(b)
    ensures Grown(a, b, need)
  {
  }

  lemma GrowStep(a: seq<Extent>, b: seq<Extent>, e: Extent, need: nat)
    requires Total(b) < need && Aligned(Total(b)) && Aligned(e.len) && Growing(a, b, need)
    requires GoodSize(e, |b|, need - Total(b)) && Total(b + [e]) == Total(b) + e.len
    ensures Growing(a, b + [e], need)
  {
    hide Total, RoundUp, Aligned;
    var c := b + [e];
    assert b == a + b[|a|..];
    TotalAppend(a, b[|a|..]);
    assert Total(c) < need || Total(c) == RoundUp(need) by {
      RoundUpShift(Total(b), need - Total(b), e.len);
    }
    assert |c| == |b| + 1 && c[|b|] == e;
    assert forall i | 0 <= i < |b| :: c[i] == b[i];
    assert RoundUp(need) >= need;
  }

  lemma RoundUpShift(base: nat, n: nat, len: nat)
    requires Aligned(base) && Aligned(len)
    ensures RoundUp(base + n) == base + RoundUp(n)
    ensures len < RoundUp(n) ==> len < n
  {
  }

  lemma AlignedCapacity(recs: map<Key, Rec>, owner: map<Extent, (Key, nat)>, fl: seq<Extent>, live: set<Extent>,
                        fileEnd: nat, k: Key)
    requires Owned(recs, owner) && Partition(fl, live, fileEnd) && live == owner.Keys && k in recs
    ensures Aligned(Total(recs[k].ext))
  {
    OwnedApart(recs, owner, fl, fileEnd, k);
    TotalAligned(recs[k].ext, fileEnd);
  }

  lemma {:induction false} TotalAligned(ext: seq<Extent>, end: nat)
    requires Within(ext, end)
    ensures Aligned(Total(ext))
  {
    if ext != [] {
      assert Piece(ext[0], end);
      TotalAligned(ext[1..], end);
      AlignedSum(ext[0].len, Total(ext[1..]));
    }
  }

  // -------------------------------------------------------------------- spill

  lemma SpillTorn(recs: map<Key, Rec>, k: Key, f: seq<byte>, g: seq<byte>)
    requires RecsOk(recs, f) && k in recs && recs[k].mem.Some?
    requires ScatterTorn(f, g, recs[k].ext, 0, recs[k].size)
    requires forall j | j in recs && j != k :: SameOn(f, g, recs[j].ext)
    ensures RecsOk(recs, g) && View(recs, g) == View(recs, f)
  {
    TornRec(recs[k], f, g, 0, recs[k].size);
    Others(recs, k, f, g);
  }

  lemma Spilled(recs: map<Key, Rec>, k: Key, f: seq<byte>, g: seq<byte>)
    requires RecsOk(recs, f) && k in recs && recs[k].mem.Some? && recs[k].size <= Total(recs[k].ext)
    requires recs[k].size <= |recs[k].mem.value|
    requires Scattered(f, g, recs[k].ext, 0, recs[k].mem.value[..recs[k].size])
    requires forall j | j in recs && j != k :: SameOn(f, g, recs[j].ext)
    ensures var after := recs[k := recs[k].(mem := None)];
            RecsOk(after, g) && View(after, g) == View(recs, f)
  {
    SpillRec(recs[k], f, g);
    Others(recs, k, f, g);
  }

  lemma Others(recs: map<Key, Rec>, k: Key, f: seq<byte>, g: seq<byte>)
    requires RecsOk(recs, f)
    requires forall j | j in recs && j != k :: SameOn(f, g, recs[j].ext)
    ensures forall j | j in recs && j != k :: RecOk(recs[j], g) && Content(recs[j], g) == Content(recs[j], f)
  {
    forall j | j in recs && j != k ensures RecOk(recs[j], g) && Content(recs[j], g) == Content(recs[j], f) {
      SameRec(recs[j], f, g);
    }
  }

  // ------------------------------------------------------------------ eviction

  ghost predicate Pinned(recs: map<Key, Rec>, k: Key, keep: Option<Key>) {
    keep == Some(k) || (k in recs && recs[k].busy > 0)
  }

  ghost predicate SameMeta(a: map<Key, Rec>, b: map<Key, Rec>) {
    a.Keys == b.Keys && forall k | k in a :: a[k].size == b[k].size && a[k].busy == b[k].busy && a[k].attr == b[k].attr
  }

  ghost predicate Kept(a: map<Key, Rec>, b: map<Key, Rec>, keep: Option<Key>) {
    forall k | k in a && Pinned(a, k, keep) :: k in b && b[k] == a[k]
  }

  lemma MetaRefl(recs: map<Key, Rec>, keep: Option<Key>)
    ensures SameMeta(recs, recs) && Kept(recs, recs, keep)
  {
  }

  lemma MetaStep(a: map<Key, Rec>, b: map<Key, Rec>, c: map<Key, Rec>, k: Key, keep: Option<Key>)
    requires SameMeta(a, b) && k in b && k in c
    requires c == b[k := b[k].(ext := c[k].ext, mem := c[k].mem)]
    ensures SameMeta(a, c)
    ensures Kept(a, b, keep) && !Pinned(b, k, keep) ==> Kept(a, c, keep)
  {
  }

  /** Whatever went was colder than everything that stayed and could have gone. */
  ghost predicate ColdFirst(was: seq<Key>, gone: set<Key>, recs: map<Key, Rec>, keep: Option<Key>) {
    forall i, j | 0 <= i < j < |was| && was[i] in gone && !Pinned(recs, was[j], keep) :: was[j] in gone
  }

  ghost predicate Evicted(was: seq<Key>, now: seq<Key>, recs: map<Key, Rec>, keep: Option<Key>) {
    exists gone: set<Key> :: now == Minus(was, gone) && ColdFirst(was, gone, recs, keep)
  }

  lemma EvictedNone(was: seq<Key>, recs: map<Key, Rec>, keep: Option<Key>)
    ensures Evicted(was, was, recs, keep)
  {
    MinusNone(was);
    assert ColdFirst(was, {}, recs, keep);
  }

  /** Evicting the last record that is not pinned goes from the cold end. */
  lemma EvictedMore(was: seq<Key>, now: seq<Key>, recs: map<Key, Rec>, keep: Option<Key>, p: nat)
    requires Distinct(now) && Evicted(was, now, recs, keep) && p < |now|
    requires forall q | p < q < |now| :: Pinned(recs, now[q], keep)
    ensures Evicted(was, Without(now, now[p]), recs, keep)
  {
    hide Pinned, Minus, Without;
    var gone: set<Key> :| now == Minus(was, gone) && ColdFirst(was, gone, recs, keep);
    var v := now[p];
    MinusMore(was, gone, v);
    forall i, j | 0 <= i < j < |was| && was[i] in gone + {v} && !Pinned(recs, was[j], keep)
      ensures was[j] in gone + {v}
    {
      if was[i] == v {
        ColderPinned(was, gone, recs, keep, p, i, j);
      }
    }
    assert ColdFirst(was, gone + {v}, recs, keep);
  }

  lemma ColderPinned(was: seq<Key>, gone: set<Key>, recs: map<Key, Rec>, keep: Option<Key>, p: nat, i: nat, j: nat)
    requires i < j < |was|
    requires var now := Minus(was, gone);
             Distinct(now) && p < |now| && now[p] == was[i] && forall q | p < q < |now| :: Pinned(recs, now[q], keep)
    ensures was[j] in gone || Pinned(recs, was[j], keep)
  {
    hide Pinned, Minus;
    var now := Minus(was, gone);
    assert now[p] in now;
    MinusHas(was, gone, now[p]);
    if was[j] !in gone {
      var a, b := MinusOrder(was, gone, i, j);
      assert now[a] == now[p];
      assert Pinned(recs, now[b], keep);
    }
  }

  /** Records only move to extents: a list gains entries at its end, a buffer is dropped. */
  ghost predicate Spills(a: map<Key, Rec>, b: map<Key, Rec>) {
    forall k | k in a :: k in b && a[k].ext <= b[k].ext && (b[k].mem == a[k].mem || b[k].mem.None?)
  }

  /** Only the records that left the list have changed. */
  ghost predicate Parted(a: map<Key, Rec>, b: map<Key, Rec>, was: seq<Key>, now: seq<Key>) {
    forall k | k in a && (k !in was || k in now) :: k in b && b[k] == a[k]
  }

  lemma PartedRefl(recs: map<Key, Rec>, lru: seq<Key>)
    ensures Spills(recs, recs) && Parted(recs, recs, lru, lru)
  {
  }

  lemma SpillsMore(a: map<Key, Rec>, b: map<Key, Rec>, c: map<Key, Rec>, k: Key)
    requires Spills(a, b) && k in b && k in c && c == b[k := b[k].(ext := c[k].ext, mem := c[k].mem)]
    requires b[k].ext <= c[k].ext && (c[k].mem == b[k].mem || c[k].mem.None?)
    ensures Spills(a, c)
  {
  }

  lemma PartedMore(a: map<Key, Rec>, b: map<Key, Rec>, c: map<Key, Rec>, was: seq<Key>, now: seq<Key>, k: Key)
    requires Parted(a, b, was, now) && k in now && k in b && k in c
    requires c == b[k := c[k]] && (forall j | j in now :: j in was)
    ensures Parted(a, c, was, Without(now, k))
  {
  }

  lemma SamePinned(a: map<Key, Rec>, b: map<Key, Rec>, keep: Option<Key>)
    requires SameMeta(a, b)
    ensures forall k :: Pinned(a, k, keep) <==> Pinned(b, k, keep)
  {
  }

  /** No other record has an operation in flight. */
  ghost predicate IdleBut(recs: map<Key, Rec>, k: Key) {
    forall j | j in recs && j != k :: recs[j].busy == 0
  }

  /** When only `k` is left on the list, it is all that is resident. */
  lemma OnlyKept(a: map<Key, Rec>, recs: map<Key, Rec>, k: Key, lru: seq<Key>, resident: nat, budget: nat)
    requires Tier(recs, lru, resident, budget) && SameMeta(a, recs) && IdleBut(a, k)
    ensures (forall j | j in lru :: Pinned(recs, j, Some(k))) ==> resident == MemCap(recs, k)
  {
    if forall j | j in lru :: Pinned(recs, j, Some(k)) {
      assert forall j | j in lru :: j == k;
      ResidentWithout(lru, recs, k);
      EmptyOrNot(Without(lru, k));
    }
  }

  lemma EmptyOrNot(lru: seq<Key>)
    ensures lru == [] || exists j :: j in lru
  {
    assert lru == [] || lru[0] in lru;
  }

  lemma KeptOne(a: map<Key, Rec>, b: map<Key, Rec>, k: Key)
    requires Kept(a, b, Some(k)) && k in a
    ensures k in b && b[k] == a[k]
  {
    assert Pinned(a, k, Some(k));
  }

  lemma NotResident(recs: map<Key, Rec>, lru: seq<Key>, resident: nat, budget: nat, k: Key)
    requires Tier(recs, lru, resident, budget) && k in recs && recs[k].mem.None?
    ensures Without(lru, k) == lru
  {
    WithoutDistinct(lru, k);
  }

  lemma TierIn(recs: map<Key, Rec>, lru: seq<Key>, resident: nat, budget: nat)
    requires Tier(recs, lru, resident, budget)
    ensures Distinct(lru) && forall i | 0 <= i < |lru| :: lru[i] in recs
  {
    assert forall i | 0 <= i < |lru| :: lru[i] in lru;
  }

  lemma ResidentAtLeast(recs: map<Key, Rec>, lru: seq<Key>, resident: nat, budget: nat, k: Key)
    requires Tier(recs, lru, resident, budget) && k in recs
    ensures MemCap(recs, k) <= resident
  {
    ResidentWithout(lru, recs, k);
  }

  lemma Buffered(recs: map<Key, Rec>, k: Key, f: seq<byte>, buffer: seq<byte>)
    requires RecsOk(recs, f) && k in recs && recs[k].ext == [] && Cap(recs[k]) < |buffer|
    requires var was := if recs[k].mem.Some? then recs[k].mem.value else [];
             |was| <= |buffer| && buffer == was + Zeros(|buffer| - |was|)
    ensures var after := recs[k := recs[k].(mem := Some(buffer))];
            RecsOk(after, f) && View(after, f) == View(recs, f)
  {
    var r := recs[k];
    var q := r.(mem := Some(buffer));
    assert Total([]) == 0;
    assert forall p: nat :: At(buffer, p) == if r.mem.Some? then At(r.mem.value, p) else 0;
    assert Content(q, f) == Content(r, f);
  }

  // ------------------------------------------------------------ the data phase

  /** The table as it was, up to buffers and operations in flight. */
  ghost predicate Frozen(a: map<Key, Rec>, b: map<Key, Rec>) {
    a.Keys == b.Keys && forall k | k in a ::
      a[k].size == b[k].size && a[k].ext == b[k].ext && a[k].attr == b[k].attr && a[k].busy == b[k].busy
  }

  ghost predicate Idle(recs: map<Key, Rec>) {
    forall k | k in recs :: recs[k].busy == 0
  }

  /** No operation is left in flight and no attribute has changed; a new key has neither. */
  ghost predicate Settled(a: map<Key, Rec>, b: map<Key, Rec>) {
    forall k | k in b :: (b[k].busy, b[k].attr) == if k in a then (a[k].busy, a[k].attr) else (0, [])
  }

  lemma SettledIdle(a: map<Key, Rec>, b: map<Key, Rec>)
    requires Settled(a, b) && Idle(a)
    ensures Idle(b)
  {
  }

  lemma SettledFrozen(a: map<Key, Rec>, b: map<Key, Rec>, c: map<Key, Rec>)
    requires Settled(a, b) && Frozen(b, c)
    ensures Settled(a, c)
  {
  }

  lemma SettledLess(a: map<Key, Rec>, k: Key)
    ensures Settled(a, a) && Settled(a, a - {k}) && (k !in a ==> Settled(a, a[k := EMPTY]))
  {
  }

  lemma SettledGrown(a: map<Key, Rec>, b: map<Key, Rec>, c: map<Key, Rec>, k: Key, n: nat)
    requires Settled(a, b) && SameMeta(b, c) && k in c
    ensures Settled(a, c) && Settled(a, c[k := c[k].(size := n)])
  {
  }

  /** Nothing changed outside the heap: not the super block, not what lies past the end. */
  ghost predicate HeapOnly(f: seq<byte>, g: seq<byte>, fileEnd: nat) {
    |f| <= |g| && forall x: nat | x < SUPER || fileEnd <= x :: At(g, x) == At(f, x)
  }

  lemma InsertedEmpty(recs: map<Key, Rec>, owner: map<Extent, (Key, nat)>, f: seq<byte>, k: Key,
                      lru: seq<Key>, resident: nat, budget: nat)
    requires Owned(recs, owner) && RecsOk(recs, f) && Tier(recs, lru, resident, budget)
    requires KeyOk(k) && k !in recs
    ensures var after := recs[k := EMPTY];
            && Owned(after, owner) && RecsOk(after, f) && Tier(after, lru, resident, budget)
            && View(after, f) == View(recs, f)[k := []]
  {
    TierSame(recs, recs[k := EMPTY], lru, resident, budget);
    assert Content(EMPTY, f) == [];
  }

  lemma Sized(recs: map<Key, Rec>, f: seq<byte>, k: Key, n: nat)
    requires RecsOk(recs, f) && k in recs && n <= Cap(recs[k])
    ensures var after := recs[k := recs[k].(size := Max(recs[k].size, n))];
            && RecsOk(after, f)
            && View(after, f) == View(recs, f)[k := Extend(View(recs, f)[k], n)]
  {
    var r := recs[k];
    var q := r.(size := Max(r.size, n));
    assert forall p: nat | r.size <= p :: ByteOf(r, f, p) == 0;
    var d := Extend(Content(r, f), n);
    assert forall p: nat | p < |d| :: d[p] == At(Content(r, f), p);
    assert Content(q, f) == d;
  }

  lemma Marked(recs: map<Key, Rec>, owner: map<Extent, (Key, nat)>, f: seq<byte>, k: Key, busy: nat)
    requires Owned(recs, owner) && RecsOk(recs, f) && k in recs
    ensures var after := recs[k := recs[k].(busy := busy)];
            Owned(after, owner) && RecsOk(after, f) && View(after, f) == View(recs, f)
  {
    OwnedSame(recs, owner, k, recs[k].(busy := busy));
    assert Content(recs[k].(busy := busy), f) == Content(recs[k], f);
  }

  lemma DataTorn(recs: map<Key, Rec>, k: Key, f: seq<byte>, g: seq<byte>, seg: Seg)
    requires RecsOk(recs, f) && k in recs && seg.off + |seg.buf| <= recs[k].size
    requires ScatterTorn(f, g, recs[k].ext, seg.off, |seg.buf|)
    requires forall j | j in recs && j != k :: SameOn(f, g, recs[j].ext)
    ensures RecsOk(recs, g) && Smudged(View(recs, f), View(recs, g), k, [seg])
  {
    TornRec(recs[k], f, g, seg.off, |seg.buf|);
    Others(recs, k, f, g);
    var c, d := Content(recs[k], f), Content(recs[k], g);
    forall p: nat | !InSegs([seg], p) ensures At(d, p) == At(c, p) {
      assert !([seg][0].off <= p < [seg][0].off + |[seg][0].buf|);
    }
  }

  lemma DataWrote(recs: map<Key, Rec>, k: Key, f: seq<byte>, g: seq<byte>, seg: Seg)
    requires RecsOk(recs, f) && k in recs && recs[k].mem.None? && seg.off + |seg.buf| <= recs[k].size
    requires Scattered(f, g, recs[k].ext, seg.off, seg.buf)
    requires forall j | j in recs && j != k :: SameOn(f, g, recs[j].ext)
    ensures RecsOk(recs, g)
    ensures View(recs, g) == View(recs, f)[k := Overlay(View(recs, f)[k], seg.off, seg.buf)]
  {
    Others(recs, k, f, g);
    assert Content(recs[k], g) == Overlay(Content(recs[k], f), seg.off, seg.buf);
  }

  lemma BufferWrote(recs: map<Key, Rec>, k: Key, f: seq<byte>, seg: Seg)
    requires RecsOk(recs, f) && k in recs && recs[k].mem.Some? && seg.off + |seg.buf| <= recs[k].size
    requires recs[k].size <= |recs[k].mem.value|
    ensures var after := recs[k := recs[k].(mem := Some(Overlay(recs[k].mem.value, seg.off, seg.buf)))];
            && RecsOk(after, f)
            && View(after, f) == View(recs, f)[k := Overlay(View(recs, f)[k], seg.off, seg.buf)]
  {
    var m := recs[k].mem.value;
    var q := recs[k].(mem := Some(Overlay(m, seg.off, seg.buf)));
    assert forall p: nat | p >= recs[k].size :: At(Overlay(m, seg.off, seg.buf), p) == At(m, p);
    assert Content(q, f) == Overlay(Content(recs[k], f), seg.off, seg.buf);
  }

  lemma OutsideHeap(recs: map<Key, Rec>, owner: map<Extent, (Key, nat)>, fl: seq<Extent>, fileEnd: nat, k: Key,
                    f: seq<byte>, g: seq<byte>, off: nat, n: nat)
    requires Owned(recs, owner) && Separate(fl, owner.Keys, fileEnd) && k in recs
    requires ScatterTorn(f, g, recs[k].ext, off, n)
    ensures HeapOnly(f, g, fileEnd)
  {
    OwnedApart(recs, owner, fl, fileEnd, k);
    forall x: nat | x < SUPER || fileEnd <= x ensures At(g, x) == At(f, x) {
      assert forall i | 0 <= i < |recs[k].ext| :: Piece(recs[k].ext[i], fileEnd);
      assert !Covers(recs[k].ext, x);
    }
  }

  // -------------------------------------------------- faults in a vectored write

  lemma {:induction false} OverlaysOutside(c: seq<byte>, segs: seq<Seg>, p: nat)
    requires High(segs) <= |c| && !InSegs(segs, p)
    ensures At(Overlays(c, segs), p) == At(c, p)
  {
    if segs != [] {
      var init := segs[..|segs| - 1];
      assert forall i | 0 <= i < |init| :: init[i] == segs[i];
      OverlaysOutside(c, init, p);
    }
  }

  lemma SmudgedSegs(m: Keyed, n: Keyed, k: Key, segs: seq<Seg>, i: nat)
    requires k in m && i < |segs| && High(segs[..i]) <= |m[k]|
    requires Smudged(m[k := Overlays(m[k], segs[..i])], n, k, [segs[i]])
    ensures Smudged(m, n, k, segs)
  {
    forall p: nat | !InSegs(segs, p) ensures At(n[k], p) == At(m[k], p) {
      assert forall j | 0 <= j < i :: segs[..i][j] == segs[j];
      OverlaysOutside(m[k], segs[..i], p);
      assert !InSegs([segs[i]], p);
    }
  }

  lemma HighTake(segs: seq<Seg>, i: nat)
    requires i < |segs|
    ensures High(segs[..i + 1]) == Max(High(segs[..i]), segs[i].off + |segs[i].buf|)
    ensures High(segs[..i]) <= High(segs[..i + 1])
  {
    assert segs[..i + 1][..i] == segs[..i];
  }

  lemma {:induction false} HighPrefix(segs: seq<Seg>, i: nat)
    requires i <= |segs|
    ensures High(segs[..i]) <= High(segs)
    decreases |segs| - i
  {
    if i < |segs| {
      HighTake(segs, i);
      HighPrefix(segs, i + 1);
    } else {
      assert segs[..i] == segs;
    }
  }

  /** One more segment. */
  lemma OverlaysNext(c: seq<byte>, segs: seq<Seg>, i: nat)
    requires i < |segs| && High(segs) <= |c|
    ensures High(segs[..i]) <= |c| && High(segs[..i + 1]) <= |c| && segs[i].off + |segs[i].buf| <= |c|
    ensures Overlays(c, segs[..i + 1]) == Overlay(Overlays(c, segs[..i]), segs[i].off, segs[i].buf)
  {
    hide Overlay;
    HighTake(segs, i);
    HighPrefix(segs, i + 1);
    assert segs[..i + 1][..i] == segs[..i];
  }

  /** One more range. */
  lemma CutsNext(c: seq<byte>, spans: seq<Span>, i: nat)
    requires i < |spans|
    ensures Cuts(c, spans[..i + 1]) == Cuts(c, spans[..i]) + [Clip(c, spans[i])]
  {
    hide Clip;
  }

  // ------------------------------------------------------------- small steps

  lemma FitsCap(recs: map<Key, Rec>, f: seq<byte>, k: Key)
    requires RecsOk(recs, f) && k in recs
    ensures recs[k].size <= Cap(recs[k])
    ensures if recs[k].mem.Some? then recs[k].size <= |recs[k].mem.value| == MemCap(recs, k)
            else recs[k].size <= Total(recs[k].ext)
  {
  }

  lemma SameSize(a: map<Key, Rec>, b: map<Key, Rec>, k: Key)
    requires SameMeta(a, b) && k in a
    ensures k in b && a[k].size == b[k].size && a[k].attr == b[k].attr && a[k].busy == b[k].busy
  {
  }

  lemma TierResize(recs: map<Key, Rec>, k: Key, n: nat, lru: seq<Key>, resident: nat, budget: nat)
    requires Tier(recs, lru, resident, budget) && k in recs
    ensures Tier(recs[k := recs[k].(size := n)], lru, resident, budget)
  {
    TierSame(recs, recs[k := recs[k].(size := n)], lru, resident, budget);
  }

  lemma TierOverlay(recs: map<Key, Rec>, k: Key, off: nat, buf: seq<byte>, lru: seq<Key>, resident: nat, budget: nat)
    requires Tier(recs, lru, resident, budget) && k in recs && recs[k].mem.Some?
    requires off + |buf| <= |recs[k].mem.value|
    ensures Tier(recs[k := recs[k].(mem := Some(Overlay(recs[k].mem.value, off, buf)))], lru, resident, budget)
  {
    TierSame(recs, recs[k := recs[k].(mem := Some(Overlay(recs[k].mem.value, off, buf)))], lru, resident, budget);
  }

  lemma InsideFile(ext: seq<Extent>, fileEnd: nat, size: nat)
    requires Within(ext, fileEnd) && fileEnd <= size
    ensures forall e | e in ext :: End(e) <= size
  {
  }

  lemma OutsideTrans(f: seq<byte>, g: seq<byte>, h: seq<byte>, fileEnd: nat)
    requires HeapOnly(f, g, fileEnd) && HeapOnly(g, h, fileEnd)
    ensures HeapOnly(f, h, fileEnd)
  {
  }

  lemma NoSegs(m: Keyed, k: Key, segs: seq<Seg>)
    requires k in m
    ensures High(segs[..0]) == 0 && m[k := Overlays(m[k], segs[..0])] == m
  {
  }

  lemma Erased(recs: map<Key, Rec>, k: Key, f: seq<byte>)
    requires RecsOk(recs, f)
    ensures RecsOk(recs - {k}, f) && View(recs - {k}, f) == View(recs, f) - {k}
  {
  }

  // ------------------------------------------- what each operation amounts to

  lemma FrozenTrans(a: map<Key, Rec>, b: map<Key, Rec>, c: map<Key, Rec>,
                    f: seq<byte>, g: seq<byte>, h: seq<byte>, fileEnd: nat)
    requires Frozen(a, b) && Frozen(b, c) && HeapOnly(f, g, fileEnd) && HeapOnly(g, h, fileEnd)
    ensures Frozen(a, c) && HeapOnly(f, h, fileEnd)
  {
  }

  lemma FrozenRefl(recs: map<Key, Rec>, f: seq<byte>, fileEnd: nat)
    ensures Frozen(recs, recs) && HeapOnly(f, f, fileEnd)
  {
  }

  lemma SizeOf(recs: map<Key, Rec>, f: seq<byte>, k: Key)
    ensures k in recs <==> k in View(recs, f)
    ensures |Old(View(recs, f), k)| == if k in recs then recs[k].size else 0
    ensures k in recs ==> |View(recs, f)[k]| == recs[k].size
  {
  }

  /** A refused key, a failed read and a failed reserve. */
  lemma FailOutcome(m: Keyed, op: Op, shared: bool)
    ensures !KeyOk(op.key) ==> Did(m, m, op, shared, Just(Inval))
    ensures op.Read? || op.Readv? ==> Did(m, m, op, shared, Just(Io))
    ensures op.Reserve? ==> Did(m, m[op.key := Old(m, op.key)], op, shared, Just(Io))
  {
  }

  lemma DidTorn(m: Keyed, n: Keyed, op: Op, shared: bool, segs: seq<Seg>)
    requires op.Write? || op.Writev? || op.Append?
    requires segs == Targets(m, op) && Spared(m, n, op.key, segs)
    ensures Did(m, n, op, shared, Just(Io))
  {
  }

  lemma OneSeg(c: seq<byte>, seg: Seg)
    ensures High([seg]) == seg.off + |seg.buf|
    ensures Overlays(Extend(c, High([seg])), [seg]) == Put(c, seg.off, seg.buf)
  {
    assert [seg][..0] == [];
    assert High([]) == 0;
    assert Overlays(Extend(c, High([seg])), []) == Extend(c, High([seg]));
  }

  lemma AppendIsPut(c: seq<byte>, buf: seq<byte>)
    ensures Overlays(Extend(c, High([Seg(|c|, buf)])), [Seg(|c|, buf)]) == c + buf
  {
    OneSeg(c, Seg(|c|, buf));
    assert Put(c, |c|, buf) == c + buf;
  }

  /** The outcomes of a write, in the order the code decides between them. */
  lemma WriteOutcome(m: Keyed, op: Op, shared: bool, segs: seq<Seg>)
    requires KeyOk(op.key)
    requires (op.Write? && segs == [Seg(op.off, op.buf)]) || (op.Writev? && segs == op.segs)
    ensures var k := op.key; var c := Old(m, k);
            if segs == [] then Did(m, m, op, shared, Just(Ok))
            else if High(segs) >= LIMIT then Did(m, m, op, shared, Just(Range))
            else if shared && (k !in m || High(segs) > |c|) then Did(m, m, op, shared, Just(Mode))
            else Did(m, m[k := Overlays(Extend(c, High(segs)), segs)], op, shared, Just(Ok))
  {
    if op.Write? {
      OneSeg(Old(m, op.key), Seg(op.off, op.buf));
    }
  }

  lemma ReadOutcome(m: Keyed, op: Op, shared: bool, spans: seq<Span>)
    requires KeyOk(op.key)
    requires (op.Read? && spans == [Span(op.off, op.n)]) || (op.Readv? && spans == op.spans)
    ensures var k := op.key; var c := Old(m, k);
            if spans == [] then Did(m, m, op, shared, Just(Ok))
            else if HighSpan(spans) >= LIMIT then Did(m, m, op, shared, Just(Range))
            else if k !in m then Did(m, m, op, shared, Just(NoKey))
            else if HighSpan(spans) > |c| then Did(m, m, op, shared, Just(Range))
            else Did(m, m, op, shared, Reply(Ok, Cuts(c, spans), 0))
  {
    if op.Read? {
      assert spans[..0] == [] && HighSpan([]) == 0;
      assert HighSpan(spans) == op.off + op.n;
      if op.key in m && op.off + op.n <= |m[op.key]| {
        assert Cuts(m[op.key], spans) == [m[op.key][op.off..op.off + op.n]];
      }
    }
  }

  lemma LayoutOutcome(m: Keyed, op: Op, shared: bool)
    requires KeyOk(op.key) && (op.Reserve? || op.Append? || op.Erase?)
    ensures var k := op.key; var c := Old(m, k);
            && (shared ==> Did(m, m, op, shared, Just(Mode)))
            && (!shared && op.Erase? ==>
                  if k in m then Did(m, m - {k}, op, shared, Just(Ok)) else Did(m, m, op, shared, Just(NoKey)))
            && (!shared && op.Reserve? ==> Did(m, m[k := Extend(c, op.n)], op, shared, Just(Ok)))
            && (!shared && op.Append? ==>
                  if |c| + |op.buf| >= LIMIT then Did(m, m[k := c], op, shared, Just(Range))
                  else Did(m, m[k := c + op.buf], op, shared, Reply(Ok, [], |c|)))
  {
  }

  // --------------------------------------------------------------- accumulate

  lemma BufferIs(recs: map<Key, Rec>, f: seq<byte>, k: Key, off: nat, n: nat)
    requires k in recs && recs[k].mem.Some? && off + n <= recs[k].size <= |recs[k].mem.value|
    ensures View(recs, f)[k][off..off + n] == recs[k].mem.value[off..off + n]
  {
  }

  lemma ReducedNone(m: Keyed, k: Key, off: nat, op: Reduction)
    requires k in m && off <= |m[k]| && Splits(op)
    ensures m[k := Reduced(m[k], off, [], op)] == m
  {
    KeepsLength(op, m[k][off..off], []);
    assert Reduced(m[k], off, [], op) == m[k];
  }

  /** One more chunk: what it reads is untouched so far, and what it writes is the next part of
      the whole reduction. */
  lemma ReduceStep(c: seq<byte>, off: nat, buf: seq<byte>, done: nat, n: nat, op: Reduction)
    requires off + |buf| <= |c| && Splits(op) && done + n <= |buf| && done % CHUNK == 0
    ensures var part := Reduced(c, off, buf[..done], op);
            && |part| == |c| && |op(part[off + done..off + done + n], buf[done..done + n])| == n
            && Overlay(part, off + done, op(part[off + done..off + done + n], buf[done..done + n]))
               == Reduced(c, off, buf[..done + n], op)
  {
    hide Splits, Overlay;
    var a, b := c[off..off + done], buf[..done];
    var a1, b1 := c[off + done..off + done + n], buf[done..done + n];
    KeepsLength(op, a, b);
    KeepsLength(op, a1, b1);
    SplitMany(op, a, b, a1, b1);
    assert c[off..off + done + n] == a + a1 && buf[..done + n] == b + b1;
    var part := Reduced(c, off, b, op);
    assert part[off + done..off + done + n] == a1;
    OverlayTwice(c, off, op(a, b), op(a1, b1));
  }

  lemma OverlayTwice(c: seq<byte>, off: nat, a: seq<byte>, b: seq<byte>)
    requires off + |a| + |b| <= |c|
    ensures Overlay(Overlay(c, off, a), off + |a|, b) == Overlay(c, off, a + b)
  {
  }

  lemma SmudgedReduced(m: Keyed, now: Keyed, k: Key, off: nat, buf: seq<byte>, done: nat, n: nat, op: Reduction,
                       out: seq<byte>)
    requires k in m && off + |buf| <= |m[k]| && done + n <= |buf|
    requires var before := m[k := Reduced(m[k], off, buf[..done], op)];
             now == before || (|out| == n && Smudged(before, now, k, [Seg(off + done, out)]))
    ensures Smudged(m, now, k, [Seg(off, buf)])
  {
    hide Overlay;
    var whole, part := [Seg(off, buf)], [Seg(off + done, out)];
    forall p: nat | !InSegs(whole, p) ensures At(now[k], p) == At(m[k], p) {
      assert !(whole[0].off <= p < whole[0].off + |whole[0].buf|);
      assert |out| == n ==> !InSegs(part, p);
    }
  }
}
