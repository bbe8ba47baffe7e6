/** Records as values: where their bytes are, and what every record of a store must satisfy
    (src/internal.h:20-47). */
module Records {
  import opened Wrappers
  import opened Disk
  import opened Extents
  import opened Holes
  import opened Allocator

  type Key = seq<byte>

  const KEY_MAX: nat := 255
  const ATTR_MAX: nat := 256

  /** A C string of acceptable length (ls_key_ok). */
  predicate KeyOk(k: Key) {
    0 < |k| <= KEY_MAX && 0 !in k
  }

  /** `mem` is the resident buffer, whose length is mem_cap. */
  datatype Rec = Rec(size: nat, mem: Option<seq<byte>>, ext: seq<Extent>, busy: nat, attr: seq<byte>)

  const EMPTY: Rec := Rec(0, None, [], 0, [])

  /** A resident buffer is authoritative; otherwise the bytes are in the extents. */
  function ByteOf(r: Rec, f: seq<byte>, p: nat): byte {
    if r.mem.Some? then At(r.mem.value, p)
    else if p < Total(r.ext) then At(f, FileOff(r.ext, p)) else 0
  }

  /** What the caller sees. */
  function Content(r: Rec, f: seq<byte>): (c: seq<byte>)
    ensures |c| == r.size
    ensures forall p: nat | p < r.size :: c[p] == ByteOf(r, f, p)
  {
    seq(r.size, p requires 0 <= p => ByteOf(r, f, p))
  }

  function Cap(r: Rec): nat {
    if r.mem.Some? then |r.mem.value| else Total(r.ext)
  }

  /** All capacity past the logical size is zero, in the buffer and in the extents. */
  ghost predicate Zeroed(r: Rec, f: seq<byte>) {
    && (r.mem.Some? ==> forall p: nat | r.size <= p :: At(r.mem.value, p) == 0)
    && (forall p: nat | r.size <= p < Total(r.ext) :: At(f, FileOff(r.ext, p)) == 0)
  }

  ghost predicate RecOk(r: Rec, f: seq<byte>) {
    && r.size <= Cap(r)
    && (r.mem.Some? ==> |r.mem.value| > 0)
    && |r.attr| <= ATTR_MAX
    && Zeroed(r, f)
  }

  ghost predicate RecsOk(recs: map<Key, Rec>, f: seq<byte>) {
    forall k | k in recs :: KeyOk(k) && RecOk(recs[k], f)
  }

  /** The map from keys to bytes that a store stands for. */
  function View(recs: map<Key, Rec>, f: seq<byte>): map<Key, seq<byte>> {
    map k | k in recs :: Content(recs[k], f)
  }

  // --------------------------------------------------------------- ownership

  /** Every live extent is one entry of one record's list. */
  ghost predicate Owned(recs: map<Key, Rec>, owner: map<Extent, (Key, nat)>) {
    && (forall k, i | k in recs && 0 <= i < |recs[k].ext| ::
          recs[k].ext[i] in owner && owner[recs[k].ext[i]] == (k, i))
    && (forall e | e in owner :: var (k, i) := owner[e]; k in recs && i < |recs[k].ext| && recs[k].ext[i] == e)
  }

  ghost predicate AllApart(a: seq<Extent>, b: seq<Extent>) {
    forall i, j | 0 <= i < |a| && 0 <= j < |b| :: Apart(a[i], b[j])
  }

  ghost predicate Within(ext: seq<Extent>, end: nat) {
    forall i | 0 <= i < |ext| :: Piece(ext[i], end)
  }

  /** One key's extents never meet another's: this is why a write to one key leaves every
      other key alone. */
  lemma OwnedApart(recs: map<Key, Rec>, owner: map<Extent, (Key, nat)>, fl: seq<Extent>, fileEnd: nat, k: Key)
    requires Owned(recs, owner) && Separate(fl, owner.Keys, fileEnd) && k in recs
    ensures Disjoint(recs[k].ext) && Within(recs[k].ext, fileEnd)
    ensures forall j | j in recs && j != k :: AllApart(recs[k].ext, recs[j].ext)
  {
    forall j, i, l | j in recs && 0 <= i < |recs[k].ext| && 0 <= l < |recs[j].ext| && (k, i) != (j, l)
      ensures Apart(recs[k].ext[i], recs[j].ext[l])
    {
      assert owner[recs[k].ext[i]] != owner[recs[j].ext[l]];
    }
  }

  lemma OwnedFresh(recs: map<Key, Rec>, owner: map<Extent, (Key, nat)>, fl: seq<Extent>, fileEnd: nat, e: Extent)
    requires Owned(recs, owner) && Separate(fl, owner.Keys + {e}, fileEnd) && e !in owner
    ensures forall j | j in recs :: AllApart([e], recs[j].ext)
  {
  }

  lemma OwnedPush(recs: map<Key, Rec>, owner: map<Extent, (Key, nat)>, k: Key, e: Extent)
    requires Owned(recs, owner) && k in recs && e !in owner
    ensures Owned(recs[k := recs[k].(ext := recs[k].ext + [e])], owner[e := (k, |recs[k].ext|)])
  {
  }

  /** Changing anything but an extent list does not change ownership. */
  lemma OwnedSame(recs: map<Key, Rec>, owner: map<Extent, (Key, nat)>, k: Key, r: Rec)
    requires Owned(recs, owner)
    requires r.ext == if k in recs then recs[k].ext else []
    ensures Owned(recs[k := r], owner)
  {
  }

  lemma OwnedErase(recs: map<Key, Rec>, owner: map<Extent, (Key, nat)>, k: Key)
    requires Owned(recs, owner) && k in recs
    ensures var gone := set e | e in recs[k].ext;
            Owned(recs - {k}, owner - gone) && gone <= owner.Keys && Distinct(recs[k].ext)
    ensures forall i | 0 <= i < |recs[k].ext| :: recs[k].ext[i] in owner.Keys
  {
    var gone := set e | e in recs[k].ext;
    forall e | e in gone ensures e in owner && owner[e].0 == k {
      var i :| 0 <= i < |recs[k].ext| && recs[k].ext[i] == e;
    }
    forall i, j | 0 <= i < j < |recs[k].ext| ensures recs[k].ext[i] != recs[k].ext[j] {
      assert owner[recs[k].ext[i]] != owner[recs[k].ext[j]];
    }
    forall e | e in owner && e !in gone ensures owner[e].0 != k {
      var (j, i) := owner[e];
      assert recs[j].ext[i] == e;
    }
  }

  // ------------------------------------------------- what file changes spare

  /** Two files agree on every byte an extent list addresses. */
  ghost predicate SameOn(f: seq<byte>, g: seq<byte>, ext: seq<Extent>) {
    forall p: nat | p < Total(ext) :: At(g, FileOff(ext, p)) == At(f, FileOff(ext, p))
  }

  lemma SameRec(r: Rec, f: seq<byte>, g: seq<byte>)
    requires SameOn(f, g, r.ext)
    ensures RecOk(r, f) ==> RecOk(r, g)
    ensures Content(r, f) == Content(r, g)
  {
  }

  lemma SameTorn(ext: seq<Extent>, e: Extent, f: seq<byte>, g: seq<byte>)
    requires Torn(f, g, e.foff, e.len) && AllApart([e], ext)
    ensures SameOn(f, g, ext)
  {
    forall p: nat | p < Total(ext) ensures At(g, FileOff(ext, p)) == At(f, FileOff(ext, p)) {
      FileOffInside(ext, p);
      var i :| 0 <= i < |ext| && Has(ext[i], FileOff(ext, p));
      assert Apart([e][0], ext[i]);
    }
  }

  lemma SameScatter(ext: seq<Extent>, other: seq<Extent>, f: seq<byte>, g: seq<byte>, off: nat, n: nat)
    requires ScatterTorn(f, g, other, off, n) && AllApart(other, ext)
    ensures SameOn(f, g, ext)
  {
    forall p: nat | p < Total(ext) ensures At(g, FileOff(ext, p)) == At(f, FileOff(ext, p)) {
      var x := FileOff(ext, p);
      FileOffInside(ext, p);
      var i :| 0 <= i < |ext| && Has(ext[i], x);
      assert forall j | 0 <= j < |other| :: Apart(other[j], ext[i]);
      assert !Covers(other, x);
    }
  }

  lemma SameBelow(ext: seq<Extent>, f: seq<byte>, g: seq<byte>, end: nat)
    requires Within(ext, end)
    requires forall i: nat | SUPER <= i < end :: At(g, i) == At(f, i)
    ensures SameOn(f, g, ext)
  {
    forall p: nat | p < Total(ext) ensures At(g, FileOff(ext, p)) == At(f, FileOff(ext, p)) {
      FileOffInside(ext, p);
      var i :| 0 <= i < |ext| && Has(ext[i], FileOff(ext, p));
      assert Piece(ext[i], end);
    }
  }

  /** A change to fresh space is invisible to every record. */
  lemma FreshInvisible(recs: map<Key, Rec>, owner: map<Extent, (Key, nat)>, fl: seq<Extent>, fileEnd: nat,
                       e: Extent, f: seq<byte>, g: seq<byte>)
    requires Owned(recs, owner) && Separate(fl, owner.Keys + {e}, fileEnd) && e !in owner
    requires Torn(f, g, e.foff, e.len)
    ensures forall j | j in recs :: SameOn(f, g, recs[j].ext)
  {
    OwnedFresh(recs, owner, fl, fileEnd, e);
    forall j | j in recs ensures SameOn(f, g, recs[j].ext) {
      SameTorn(recs[j].ext, e, f, g);
    }
  }

  /** A scatter write to one record is invisible to the others. */
  lemma ScatterInvisible(recs: map<Key, Rec>, owner: map<Extent, (Key, nat)>, fl: seq<Extent>, fileEnd: nat,
                         k: Key, f: seq<byte>, g: seq<byte>, off: nat, n: nat)
    requires Owned(recs, owner) && Separate(fl, owner.Keys, fileEnd) && k in recs
    requires ScatterTorn(f, g, recs[k].ext, off, n)
    ensures forall j | j in recs && j != k :: SameOn(f, g, recs[j].ext)
  {
    OwnedApart(recs, owner, fl, fileEnd, k);
    forall j | j in recs && j != k ensures SameOn(f, g, recs[j].ext) {
      SameScatter(recs[j].ext, recs[k].ext, f, g, off, n);
    }
  }

  /** Nothing that happens outside the heap is visible to any record: not cutting the file back
      to the end of the heap, not a table of contents past it, not a super block. */
  lemma CutInvisible(recs: map<Key, Rec>, owner: map<Extent, (Key, nat)>, fl: seq<Extent>, fileEnd: nat,
                     f: seq<byte>, g: seq<byte>)
    requires Owned(recs, owner) && Separate(fl, owner.Keys, fileEnd)
    requires forall i: nat | SUPER <= i < fileEnd :: At(g, i) == At(f, i)
    ensures forall j | j in recs :: SameOn(f, g, recs[j].ext)
  {
    forall j | j in recs ensures SameOn(f, g, recs[j].ext) {
      OwnedApart(recs, owner, fl, fileEnd, j);
      SameBelow(recs[j].ext, f, g, fileEnd);
    }
  }

  // ----------------------------------------------------- changes to one record

  /** A zeroed extent added at the end grows the capacity and nothing else. */
  lemma PushRec(r: Rec, e: Extent, f: seq<byte>, g: seq<byte>)
    requires RecOk(r, f) && SameOn(f, g, r.ext)
    requires Wrote(f, g, e.foff, Zeros(e.len))
    ensures Total(r.ext + [e]) == Total(r.ext) + e.len
    ensures var q := r.(ext := r.ext + [e]); RecOk(q, g) && Content(q, g) == Content(r, f)
  {
    var q := r.(ext := r.ext + [e]);
    TotalAppend(r.ext, [e]);
    assert Total([e]) == e.len + Total([]);
    forall p: nat | p < Total(q.ext)
      ensures At(g, FileOff(q.ext, p)) == if p < Total(r.ext) then At(f, FileOff(r.ext, p)) else 0
    {
      if p < Total(r.ext) {
        FileOffPrefix(r.ext, [e], p);
      } else {
        FileOffSuffix(r.ext, [e], p);
        assert FileOff([e], p - Total(r.ext)) == e.foff + (p - Total(r.ext));
      }
    }
  }

  /** Once the buffer has fully landed in the extents, dropping it changes nothing. */
  lemma SpillRec(r: Rec, f: seq<byte>, g: seq<byte>)
    requires RecOk(r, f) && r.mem.Some? && r.size <= Total(r.ext)
    requires Scattered(f, g, r.ext, 0, r.mem.value[..r.size])
    ensures var q := r.(mem := None); RecOk(q, g) && Content(q, g) == Content(r, f)
  {
    var q := r.(mem := None);
    assert forall p: nat | p < r.size :: r.mem.value[..r.size][p] == At(r.mem.value, p);
  }

  /** A spill that failed part way has only touched bytes below the record's size. */
  lemma TornRec(r: Rec, f: seq<byte>, g: seq<byte>, off: nat, n: nat)
    requires RecOk(r, f) && ScatterTorn(f, g, r.ext, off, n) && off + n <= r.size
    ensures RecOk(r, g)
    ensures r.mem.Some? ==> Content(r, g) == Content(r, f)
    ensures forall p: nat | p < r.size && !(off <= p < off + n) :: Content(r, g)[p] == Content(r, f)[p]
  {
  }

  // ----------------------------------------------------------- the LRU order

  /** ls_lru_drop on the order: remove `k`, if it is there. */
  function Without(lru: seq<Key>, k: Key): (r: seq<Key>)
    ensures forall j :: j in r <==> j in lru && j != k
    ensures |r| <= |lru| && (k in lru ==> |r| < |lru|)
  {
    if lru == [] then []
    else if lru[0] == k then Without(lru[1..], k)
    else [lru[0]] + Without(lru[1..], k)
  }

  lemma {:induction false} WithoutDistinct(lru: seq<Key>, k: Key)
    requires Distinct(lru)
    ensures Distinct(Without(lru, k))
    ensures k !in lru ==> Without(lru, k) == lru
  {
    hide Distinct;
    if lru != [] {
      DistinctTail(lru);
      WithoutDistinct(lru[1..], k);
      DistinctCons(lru[0], Without(lru[1..], k));
    }
  }

  lemma DistinctTail(lru: seq<Key>)
    requires Distinct(lru) && lru != []
    ensures Distinct(lru[1..]) && lru[0] !in lru[1..]
  {
  }

  lemma DistinctCons(k: Key, lru: seq<Key>)
    requires Distinct(lru)
    ensures k !in lru ==> Distinct([k] + lru)
  {
  }

  /** The order without all of `gone`. */
  function Minus(lru: seq<Key>, gone: set<Key>): seq<Key> {
    if lru == [] then []
    else if lru[0] in gone then Minus(lru[1..], gone)
    else [lru[0]] + Minus(lru[1..], gone)
  }

  lemma {:induction false} MinusNone(lru: seq<Key>)
    ensures Minus(lru, {}) == lru
  {
    if lru != [] {
      MinusNone(lru[1..]);
    }
  }

  lemma {:induction false} MinusMore(lru: seq<Key>, gone: set<Key>, k: Key)
    ensures Without(Minus(lru, gone), k) == Minus(lru, gone + {k})
  {
    if lru != [] {
      MinusMore(lru[1..], gone, k);
      if lru[0] !in gone {
        assert Minus(lru, gone)[1..] == Minus(lru[1..], gone);
      }
    }
  }

  lemma {:induction false} MinusHas(lru: seq<Key>, gone: set<Key>, k: Key)
    ensures k in Minus(lru, gone) <==> k in lru && k !in gone
  {
    if lru != [] {
      MinusHas(lru[1..], gone, k);
    }
  }

  /** What stays, stays in order. */
  lemma {:induction false} MinusOrder(lru: seq<Key>, gone: set<Key>, i: nat, j: nat) returns (a: nat, b: nat)
    requires i < j < |lru| && lru[i] !in gone && lru[j] !in gone
    ensures a < b < |Minus(lru, gone)| && Minus(lru, gone)[a] == lru[i] && Minus(lru, gone)[b] == lru[j]
  {
    var rest := Minus(lru[1..], gone);
    if i > 0 {
      a, b := MinusOrder(lru[1..], gone, i - 1, j - 1);
      if lru[0] !in gone {
        a, b := a + 1, b + 1;
      }
    } else {
      MinusHas(lru[1..], gone, lru[j]);
      assert lru[j] == lru[1..][j - 1];
      var c :| 0 <= c < |rest| && rest[c] == lru[j];
      a, b := 0, c + 1;
    }
  }

  function MemCap(recs: map<Key, Rec>, k: Key): nat {
    if k in recs && recs[k].mem.Some? then |recs[k].mem.value| else 0
  }

  /** The buffer bytes of the records on the list. */
  function Resident(lru: seq<Key>, recs: map<Key, Rec>): nat {
    if lru == [] then 0 else MemCap(recs, lru[0]) + Resident(lru[1..], recs)
  }

  lemma {:induction false} ResidentSame(lru: seq<Key>, a: map<Key, Rec>, b: map<Key, Rec>)
    requires forall k | k in lru :: MemCap(a, k) == MemCap(b, k)
    ensures Resident(lru, a) == Resident(lru, b)
  {
    if lru != [] {
      ResidentSame(lru[1..], a, b);
    }
  }

  lemma {:induction false} ResidentWithout(lru: seq<Key>, recs: map<Key, Rec>, k: Key)
    requires Distinct(lru)
    ensures Resident(lru, recs) == Resident(Without(lru, k), recs) + if k in lru then MemCap(recs, k) else 0
  {
    if lru != [] {
      ResidentWithout(lru[1..], recs, k);
      if lru[0] == k {
        WithoutDistinct(lru[1..], k);
      }
    }
  }

  /** The list holds exactly the resident records, `resident` is what they occupy, and that
      is within the budget. */
  ghost predicate Tier(recs: map<Key, Rec>, lru: seq<Key>, resident: nat, budget: nat) {
    && Distinct(lru)
    && (forall k :: k in lru <==> k in recs && recs[k].mem.Some?)
    && resident == Resident(lru, recs) <= budget
  }

  /** Nothing about the buffers changed. */
  lemma TierSame(a: map<Key, Rec>, b: map<Key, Rec>, lru: seq<Key>, resident: nat, budget: nat)
    requires Tier(a, lru, resident, budget)
    requires forall k :: (k in a && a[k].mem.Some?) <==> (k in b && b[k].mem.Some?)
    requires forall k :: MemCap(a, k) == MemCap(b, k)
    ensures Tier(b, lru, resident, budget)
  {
    ResidentSame(lru, a, b);
  }

  /** Dropping `k`'s buffer. */
  lemma TierDrop(a: map<Key, Rec>, b: map<Key, Rec>, k: Key, lru: seq<Key>, resident: nat, budget: nat)
    requires Tier(a, lru, resident, budget)
    requires k in b ==> b[k].mem.None?
    requires forall j | j != k :: (j in a <==> j in b) && (j in a ==> a[j].mem == b[j].mem)
    ensures MemCap(a, k) <= resident
    ensures Tier(b, Without(lru, k), resident - MemCap(a, k), budget)
  {
    WithoutDistinct(lru, k);
    ResidentWithout(lru, a, k);
    ResidentSame(Without(lru, k), a, b);
  }

  /** Giving `k` a buffer, or a larger one, and making it the most recently used. */
  lemma TierTouch(a: map<Key, Rec>, b: map<Key, Rec>, k: Key, lru: seq<Key>, resident: nat, budget: nat)
    requires Tier(a, lru, resident, budget)
    requires k in b && b[k].mem.Some?
    requires forall j | j != k :: (j in a <==> j in b) && (j in a ==> a[j].mem == b[j].mem)
    requires resident - MemCap(a, k) + MemCap(b, k) <= budget
    ensures MemCap(a, k) <= resident
    ensures Tier(b, [k] + Without(lru, k), resident - MemCap(a, k) + MemCap(b, k), budget)
  {
    hide Without, Resident, Distinct;
    var rest := Without(lru, k);
    WithoutDistinct(lru, k);
    ResidentWithout(lru, a, k);
    ResidentSame(rest, a, b);
    ResidentFront(rest, b, k);
    DistinctCons(k, rest);
  }

  lemma ResidentFront(rest: seq<Key>, recs: map<Key, Rec>, k: Key)
    ensures Resident([k] + rest, recs) == MemCap(recs, k) + Resident(rest, recs)
    ensures forall j :: j in [k] + rest <==> j == k || j in rest
  {
    assert ([k] + rest)[1..] == rest;
  }
}
