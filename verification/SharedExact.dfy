/** Sharing a store that really is in the file: what its processes leave can be opened again, and exactly
    when two uncached writes agree. */
module SharedExact {
  import opened Wrappers
  import opened Disk
  import opened Extents
  import opened Holes
  import opened Records
  import opened Spec
  import Laws
  import opened Updates
  import opened Footprint
  import opened Toc
  import opened Persist
  import opened Store
  import opened Shared
  import opened SharedWrites

  /** `g` holds the same store as `f`, with other bytes in its records: the same super block and table
      of contents, and zero capacity where there was. */
  ghost predicate HoldsToo(recs: map<Key, Rec>, fileEnd: nat, f: seq<byte>, g: seq<byte>) {
    RecsOk(recs, g) && HeapOnly(f, g, fileEnd)
  }

  /** What a keep-close wrote stays loadable, with the same table, owners and free list. */
  lemma KeptStays(f: seq<byte>, g: seq<byte>, es: seq<Entry>, owner: map<Extent, (Key, nat)>, fl: seq<Extent>, fileEnd: nat)
    requires KeptAs(f, es, owner, fl, fileEnd) && HoldsToo(Table(es), fileEnd, f, g)
    ensures KeptAs(g, es, owner, fl, fileEnd)
  {
    hide Owned, RecsOk, Partition, Bytes, Table, Serialised, SuperBlock, KeysDistinct, EntriesOk;
    var toc := Serialised(es);
    SameStretch(f, g, 0, SUPER);
    SameStretch(f, g, fileEnd, fileEnd + |toc|);
    assert g[..SUPER] == g[0..SUPER] == f[0..SUPER] == f[..SUPER];
  }

  lemma SameStretch(f: seq<byte>, g: seq<byte>, i: nat, j: nat)
    requires i <= j <= |f| <= |g| && forall x: nat | i <= x < j :: At(g, x) == At(f, x)
    ensures g[i..j] == f[i..j]
  {
    assert forall x: nat | i <= x < j :: g[x] == At(g, x) && f[x] == At(f, x);
  }

  // ------------------------------------------------------- after any interleaving

  /** No transfer touches anything but bytes below a record's size. */
  lemma TransferKeeps(recs: map<Key, Rec>, owner: map<Extent, (Key, nat)>, fl: seq<Extent>, fileEnd: nat,
                      f: seq<byte>, g: seq<byte>, prog: seq<Patch>)
    requires Layout(recs, owner, fl, fileEnd) && RecsOk(recs, f) && |f| <= |g|
    requires forall w | w in prog :: Located(recs, w)
    requires forall x: nat | !Writes(prog, x) :: At(g, x) == At(f, x)
    ensures HoldsToo(recs, fileEnd, f, g)
  {
    hide Located, Owned, Separate, FileOff, Writes;
    forall k | k in recs ensures KeyOk(k) && RecOk(recs[k], g) {
      assert RecOk(recs[k], f);
      forall p: nat | recs[k].size <= p < Total(recs[k].ext) ensures At(g, FileOff(recs[k].ext, p)) == 0 {
        CapacityMissed(recs, owner, fl, fileEnd, prog, k, p);
      }
    }
    forall x: nat | x < SUPER || fileEnd <= x ensures At(g, x) == At(f, x) {
      HeapMissed(recs, owner, fl, fileEnd, prog, x);
    }
  }

  lemma CapacityMissed(recs: map<Key, Rec>, owner: map<Extent, (Key, nat)>, fl: seq<Extent>, fileEnd: nat,
                       prog: seq<Patch>, k: Key, p: nat)
    requires Layout(recs, owner, fl, fileEnd) && forall w | w in prog :: Located(recs, w)
    requires k in recs && recs[k].size <= p < Total(recs[k].ext)
    ensures !Writes(prog, FileOff(recs[k].ext, p))
  {
    hide Layout, FileOff;
    forall w | w in prog ensures !Data(w, FileOff(recs[k].ext, p)) {
      HullIsLogical(recs, owner, fl, fileEnd, w, k, p);
    }
  }

  lemma HeapMissed(recs: map<Key, Rec>, owner: map<Extent, (Key, nat)>, fl: seq<Extent>, fileEnd: nat,
                   prog: seq<Patch>, x: nat)
    requires Layout(recs, owner, fl, fileEnd) && (forall w | w in prog :: Located(recs, w)) && (x < SUPER || fileEnd <= x)
    ensures !Writes(prog, x)
  {
    hide Layout, Located;
    forall w | w in prog ensures !Data(w, x) {
      DataInHeap(recs, owner, fl, fileEnd, w, x);
    }
  }

  lemma DataInHeap(recs: map<Key, Rec>, owner: map<Extent, (Key, nat)>, fl: seq<Extent>, fileEnd: nat, w: Patch, x: nat)
    requires Layout(recs, owner, fl, fileEnd) && Located(recs, w)
    ensures Data(w, x) ==> SUPER <= x < fileEnd
  {
    hide FileOff, Owned, Separate;
    if Data(w, x) {
      var q: nat := w.lo + (x - Pos(w));
      OwnedApart(recs, owner, fl, fileEnd, w.key);
      FileOffInside(recs[w.key].ext, q);
      var i :| 0 <= i < |recs[w.key].ext| && Has(recs[w.key].ext[i], FileOff(recs[w.key].ext, q));
      assert Piece(recs[w.key].ext[i], fileEnd);
    }
  }

  lemma {:induction false} FlatHas<T>(ss: seq<seq<T>>, p: nat, x: T)
    requires p < |ss| && x in ss[p]
    ensures x in Flat(ss)
  {
    if p > 0 {
      FlatHas(ss[1..], p - 1, x);
    }
  }

  lemma {:induction false} FlatFrom<T>(ss: seq<seq<T>>, x: T) returns (p: nat)
    requires x in Flat(ss)
    ensures p < |ss| && x in ss[p]
  {
    if x in ss[0] {
      p := 0;
    } else {
      p := FlatFrom(ss[1..], x);
      p := p + 1;
    }
  }

  lemma {:induction false} RunLonger(run: seq<State>)
    requires Runs(run)
    ensures |run[0].f| <= |run[|run| - 1].f|
  {
    hide Overlay, Slice;
    var k := |run| - 1;
    if k > 0 {
      assert Moves(run[k - 1], run[k]);
      RunLonger(run[..k]);
    }
  }

  /** Whatever order the transfers land in, the file still holds the store. */
  lemma FinalHolds(recs: map<Key, Rec>, owner: map<Extent, (Key, nat)>, fl: seq<Extent>, fileEnd: nat,
                   f: seq<byte>, direct: bool, opss: seq<seq<Op>>, run: seq<State>)
    requires Layout(recs, owner, fl, fileEnd) && RecsOk(recs, f) && AllProcesses(opss) && ProcessesApart(direct, opss)
    requires Runs(run) && run[0] == Start(f, Plans(recs, direct, opss))
    ensures HoldsToo(recs, fileEnd, f, run[|run| - 1].f)
  {
    hide Layout, RecsOk, Moves, ProcessesApart, Independent, AllContained, Plan, PlanAll, Located, HoldsToo;
    var plans := Plans(recs, direct, opss);
    var all := Flat(plans);
    PlansIndependent(recs, owner, fl, fileEnd, direct, opss);
    PlansContained(recs, owner, fl, fileEnd, direct, opss);
    RunKeeps(run, f, plans);
    RunLonger(run);
    forall w | w in all ensures Located(recs, w) {
      var p := FlatFrom(plans, w);
      PlanAllFrom(recs, direct, opss[p], w);
      var op :| op in opss[p] && w in Plan(recs, direct, op);
      var _ := PlanParts(recs, owner, fl, fileEnd, direct, op, w);
    }
    forall x: nat | !Writes(all, x) ensures At(run[|run| - 1].f, x) == At(f, x) {
      forall p | 0 <= p < |plans| ensures !Writes(plans[p], x) {
        forall w | w in plans[p] ensures !Data(w, x) {
          FlatHas(plans, p, w);
        }
      }
    }
    TransferKeeps(recs, owner, fl, fileEnd, f, run[|run| - 1].f, all);
  }

  /** A process that opens the store while or after the others write loads the layout they loaded; after
      them it sees all their writes. */
  lemma OpensTheSame(f: seq<byte>, es: seq<Entry>, owner: map<Extent, (Key, nat)>, fl: seq<Extent>, fileEnd: nat,
                     direct: bool, opss: seq<seq<Op>>, run: seq<State>)
    requires KeptAs(f, es, owner, fl, fileEnd) && es != []
    requires AllProcesses(opss) && ProcessesApart(direct, opss)
    requires Runs(run) && run[0] == Start(f, Plans(Table(es), direct, opss))
    ensures var g := run[|run| - 1].f;
            && KeptAs(g, es, owner, fl, fileEnd) && LoadImage(g) == Some(Loaded(es, fileEnd))
            && (Complete(run, f, Plans(Table(es), direct, opss)) ==>
                  View(Table(es), g) == Run(View(Table(es), f), Flat(opss), true).0)
  {
    hide Layout, RecsOk, Owned, Partition, Bytes, Image, Table, Moves, ProcessesApart, Plans, HoldsToo, View,
         LoadImage, EntriesOk, KeysDistinct;
    var recs := Table(es);
    TableCold(es);
    StoreIsLayout(recs, owner, fl, fileEnd, f);
    FinalHolds(recs, owner, fl, fileEnd, f, direct, opss, run);
    KeptStays(f, run[|run| - 1].f, es, owner, fl, fileEnd);
    LoadsBack(run[|run| - 1].f, es, fileEnd);
    if Complete(run, f, Plans(recs, direct, opss)) {
      SharedAgreement(recs, owner, fl, fileEnd, f, direct, opss, run);
    }
  }

  /** The same for one process and its store: after any run, faults included, another can open the file
      and has the same table and the same bytes. */
  method OpenBeside(s: Store, ops: seq<Op>, ghost es: seq<Entry>) returns (t: Store?)
    requires s.Valid() && s.shared && s.budget == 0 && s.recs == Table(es) && es != []
    requires KeptAs(s.file.data, es, s.owner, s.heap.fl, s.heap.fileEnd)
    modifies s, s.heap, s.file
    ensures s.recs == old(s.recs) && (old(s.file.Clean()) ==> t != null)
    ensures t != null ==> t.Valid() && t.recs == s.recs && t.heap.fl == s.heap.fl && t.heap.fileEnd == s.heap.fileEnd
                          && t.Abs() == s.Abs()
  {
    hide RecsOk, Owned, Partition, Bytes, Tier, Image, Table, Frozen, HeapOnly, View, EntriesOk, KeysDistinct, Traced,
         Idle, Owed;
    TableCold(es);
    ColdIsIdle(s.recs);
    ghost var f, owner := s.file.data, s.owner;
    ghost var trace;
    var replies;
    replies, trace := s.Run(ops);
    NothingKept(s.recs, s.file.data, s.lru, s.resident);
    FrozenCold(old(s.recs), s.recs);
    OwnersSame(s.recs, owner, s.owner);
    KeptStays(f, s.file.data, es, s.owner, s.heap.fl, s.heap.fileEnd);
    t := Reopen(s.file, 0, true, es, s.owner, s.heap.fl, s.heap.fileEnd);
  }

  lemma NothingKept(recs: map<Key, Rec>, f: seq<byte>, lru: seq<Key>, resident: nat)
    requires RecsOk(recs, f) && Tier(recs, lru, resident, 0)
    ensures forall k | k in recs :: recs[k].mem.None?
  {
    hide RecsOk;
    assert resident == 0;
    NoneResident(recs, f, lru, resident, 0);
  }

  lemma ColdIsIdle(recs: map<Key, Rec>)
    requires forall k | k in recs :: recs[k].mem.None? && recs[k].busy == 0
    ensures Idle(recs)
  {
  }

  lemma FrozenCold(a: map<Key, Rec>, b: map<Key, Rec>)
    requires Frozen(a, b)
    requires forall k | k in a :: a[k].mem.None?
    requires forall k | k in b :: b[k].mem.None?
    ensures a == b
  {
  }

  /** A table has one owner map. */
  lemma OwnersSame(recs: map<Key, Rec>, a: map<Extent, (Key, nat)>, b: map<Extent, (Key, nat)>)
    requires Owned(recs, a) && Owned(recs, b)
    ensures a == b
  {
    forall e | e in a ensures e in b && b[e] == a[e] {
      var (k, i) := a[e];
      assert recs[k].ext[i] == e;
    }
    forall e | e in b ensures e in a {
      var (k, i) := b[e];
      assert recs[k].ext[i] == e;
    }
  }

  // ------------------------------------------------------------------- reading

  /** The write leaves byte `q` of `k` alone. */
  ghost predicate Leaves(op: Op, k: Key, q: nat) {
    Writing(op) && (op.key == k ==> forall seg | seg in SegsOf(op) :: !(seg.off <= q < seg.off + |seg.buf|))
  }

  lemma PlanMisses(recs: map<Key, Rec>, owner: map<Extent, (Key, nat)>, fl: seq<Extent>, fileEnd: nat,
                   direct: bool, a: Op, k: Key, q: nat)
    requires Layout(recs, owner, fl, fileEnd) && k in recs && q < Total(recs[k].ext) && Leaves(a, k, q)
    ensures !Writes(Plan(recs, direct, a), FileOff(recs[k].ext, q))
  {
    hide Layout, Plan, FileOff;
    forall w | w in Plan(recs, direct, a) ensures !Data(w, FileOff(recs[k].ext, q)) {
      var _ := PlanParts(recs, owner, fl, fileEnd, direct, a, w);
      HullIsLogical(recs, owner, fl, fileEnd, w, k, q);
    }
  }

  /** At any point of any run, a process reads a byte that no other process writes as it would if it were
      alone: so a read, or the reading half of an accumulate, gets what it would get alone. */
  lemma ReadsAlone(recs: map<Key, Rec>, owner: map<Extent, (Key, nat)>, fl: seq<Extent>, fileEnd: nat,
                   f: seq<byte>, direct: bool, opss: seq<seq<Op>>, run: seq<State>, p: nat, k: Key, q: nat)
    requires Layout(recs, owner, fl, fileEnd) && AllProcesses(opss) && ProcessesApart(direct, opss)
    requires Runs(run) && run[0] == Start(f, Plans(recs, direct, opss))
    requires p < |opss| && k in recs && q < recs[k].size
    requires forall r, op | 0 <= r < |opss| && r != p && op in opss[r] :: Leaves(op, k, q)
    ensures var s, plans := run[|run| - 1], Plans(recs, direct, opss);
            Ends(s, plans)
            && ByteOf(recs[k], s.f, q) == ByteOf(recs[k], Solo(f, plans[p][..Behind(s, plans, p)]), q)
  {
    hide FileOff, Plan, PlanAll, Independent, AllContained, ProcessesApart, Leaves, Solo, Moves, Owned, Separate;
    var plans := Plans(recs, direct, opss);
    var x := FileOff(recs[k].ext, q);
    PlansIndependent(recs, owner, fl, fileEnd, direct, opss);
    PlansContained(recs, owner, fl, fileEnd, direct, opss);
    forall r | 0 <= r < |plans| && r != p ensures !Writes(plans[r], x) {
      forall w | w in plans[r] ensures !Data(w, x) {
        PlanAllFrom(recs, direct, opss[r], w);
        var op :| op in opss[r] && w in Plan(recs, direct, op);
        PlanMisses(recs, owner, fl, fileEnd, direct, op, k, q);
      }
    }
    ReadsOwn(run, f, plans, p, x);
  }

  // ------------------------------------------------------------- what apart is

  lemma BlockHit(lo: nat, n: nat, k: nat) returns (p: nat)
    requires n > 0 && lo / 4096 <= k <= (lo + n - 1) / 4096
    ensures lo <= p < lo + n && p / 4096 == k
  {
    p := if lo / 4096 == k then lo else k * 4096;
  }

  /** Bytes `p` and `q` of a record may not be written by two processes. */
  predicate Clash(direct: bool, p: nat, q: nat) {
    if direct then p / 4096 == q / 4096 else p == q
  }

  predicate InSeg(s: Seg, p: nat) { s.off <= p < s.off + |s.buf| }

  lemma SegsApartLaw(direct: bool, a: Seg, b: Seg)
    ensures SegsApart(direct, a, b) <==> forall p: nat, q: nat | InSeg(a, p) && InSeg(b, q) :: !Clash(direct, p, q)
  {
    if !SegsApart(direct, a, b) {
      if direct {
        var k := Max(a.off / 4096, b.off / 4096);
        var p := BlockHit(a.off, |a.buf|, k);
        var q := BlockHit(b.off, |b.buf|, k);
        assert InSeg(a, p) && InSeg(b, q) && Clash(direct, p, q);
      } else {
        var p := Max(a.off, b.off);
        assert InSeg(a, p) && InSeg(b, p) && Clash(direct, p, p);
      }
    }
  }

  /** Writes of two processes are apart when they are to different keys, or when no byte that one writes
      is a byte the other writes, or, uncached, in a 4096-byte block of one. */
  lemma ApartLaw(direct: bool, a: Op, b: Op)
    requires (a.Write? || a.Writev?) && (b.Write? || b.Writev?)
    ensures OpsApart(direct, a, b) <==>
              || a.key != b.key
              || forall p: nat, q: nat | Laws.Aimed([], a, p) && Laws.Aimed([], b, q) ::
                   if direct then p / 4096 != q / 4096 else p != q
  {
    hide SegsApart, Clash, InSeg, Laws.Aimed;
    if OpsApart(direct, a, b) && a.key == b.key {
      forall p: nat, q: nat | Laws.Aimed([], a, p) && Laws.Aimed([], b, q)
        ensures if direct then p / 4096 != q / 4096 else p != q
      {
        AimedSegs(a, p);
        AimedSegs(b, q);
        var s :| s in SegsOf(a) && InSeg(s, p);
        var t :| t in SegsOf(b) && InSeg(t, q);
        SegsApartLaw(direct, s, t);
        ClashIs(direct, p, q);
      }
    }
    if forall p: nat, q: nat | Laws.Aimed([], a, p) && Laws.Aimed([], b, q) ::
         if direct then p / 4096 != q / 4096 else p != q
    {
      forall s, t | s in SegsOf(a) && t in SegsOf(b) ensures SegsApart(direct, s, t) {
        forall p: nat, q: nat | InSeg(s, p) && InSeg(t, q) ensures !Clash(direct, p, q) {
          AimedSegs(a, p);
          AimedSegs(b, q);
          ClashIs(direct, p, q);
        }
        SegsApartLaw(direct, s, t);
      }
    }
  }

  /** Processes are apart when any write of one is apart from any write of another, however many there
      are and whatever each does to its own bytes. */
  lemma ProcessesLaw(direct: bool, opss: seq<seq<Op>>)
    ensures ProcessesApart(direct, opss) <==>
              forall p, q, i, j | 0 <= p < q < |opss| && 0 <= i < |opss[p]| && 0 <= j < |opss[q]| ::
                OpsApart(direct, opss[p][i], opss[q][j])
  {
    hide SegsApart;
    if forall p, q, i, j | 0 <= p < q < |opss| && 0 <= i < |opss[p]| && 0 <= j < |opss[q]| ::
         OpsApart(direct, opss[p][i], opss[q][j])
    {
      forall p, q, a, b | 0 <= p < |opss| && 0 <= q < |opss| && p != q && a in opss[p] && b in opss[q]
        ensures OpsApart(direct, a, b)
      {
        var i :| 0 <= i < |opss[p]| && opss[p][i] == a;
        var j :| 0 <= j < |opss[q]| && opss[q][j] == b;
        if q < p {
          assert OpsApart(direct, opss[q][j], opss[p][i]);
          OpsApartTurned(direct, b, a);
        }
      }
    }
  }

  lemma OpsApartTurned(direct: bool, a: Op, b: Op)
    requires OpsApart(direct, a, b)
    ensures OpsApart(direct, b, a)
  {
  }

  lemma ClashIs(direct: bool, p: nat, q: nat)
    ensures Clash(direct, p, q) <==> !(if direct then p / 4096 != q / 4096 else p != q)
  {
  }

  lemma AimedSegs(a: Op, p: nat)
    requires a.Write? || a.Writev?
    ensures Laws.Aimed([], a, p) <==> exists s | s in SegsOf(a) :: InSeg(s, p)
  {
    if a.Write? {
      assert Seg(a.off, a.buf) in SegsOf(a);
    } else {
      if i :| 0 <= i < |a.segs| && a.segs[i].off <= p < a.segs[i].off + |a.segs[i].buf| {
        assert a.segs[i] in a.segs && InSeg(a.segs[i], p);
      }
      if s :| s in a.segs && InSeg(s, p) {
        var i :| 0 <= i < |a.segs| && a.segs[i] == s;
        assert a.segs[i].off <= p < a.segs[i].off + |a.segs[i].buf|;
      }
    }
  }

  // ------------------------------------------------------ exactly when they agree

  /** Two processes, one write each, on any file that holds the store of `f0`: every interleaving ends as
      the two writes. */
  ghost predicate Agree(recs: map<Key, Rec>, fileEnd: nat, f0: seq<byte>, direct: bool, a: Op, b: Op)
    requires Writing(a) && Writing(b)
  {
    forall f: seq<byte>, run: seq<State>
      | HoldsToo(recs, fileEnd, f0, f) && Complete(run, f, [Plan(recs, direct, a), Plan(recs, direct, b)]) ::
      View(recs, run[|run| - 1].f) == Run(View(recs, f), [a, b], true).0
  }

  lemma OnePlan(recs: map<Key, Rec>, direct: bool, op: Op)
    requires Writing(op)
    ensures PlanAll(recs, direct, [op]) == Plan(recs, direct, op)
  {
    hide Plan;
    assert [op][..0] == [];
    assert PlanAll(recs, direct, []) == [];
  }

  lemma OneEach(recs: map<Key, Rec>, direct: bool, a: Op, b: Op)
    requires Writing(a) && Writing(b)
    ensures AllProcesses([[a], [b]]) && Plans(recs, direct, [[a], [b]]) == [Plan(recs, direct, a), Plan(recs, direct, b)]
    ensures Flat([[a], [b]]) == [a, b]
  {
    hide Plan;
    OnePlan(recs, direct, a);
    OnePlan(recs, direct, b);
    var opss := [[a], [b]];
    var plans := Plans(recs, direct, opss);
    assert plans[0] == Plan(recs, direct, a) && plans[1] == Plan(recs, direct, b);
    assert opss[1..] == [[b]] && [[b]][1..] == [];
    assert Flat([[b]]) == [b] + Flat([]);
    assert Flat(opss) == [a] + Flat([[b]]);
  }

  lemma ApartAgree(recs: map<Key, Rec>, owner: map<Extent, (Key, nat)>, fl: seq<Extent>, fileEnd: nat,
                   f0: seq<byte>, direct: bool, a: Op, b: Op)
    requires Layout(recs, owner, fl, fileEnd) && OpsApart(direct, a, b)
    ensures Agree(recs, fileEnd, f0, direct, a, b)
  {
    hide Layout, Plan, View, Runs, Run, Plans, OpsApart, HoldsToo;
    Symmetric(direct, a, b);
    OneEach(recs, direct, a, b);
    forall f: seq<byte>, run: seq<State> | Complete(run, f, [Plan(recs, direct, a), Plan(recs, direct, b)])
      ensures run != [] && View(recs, run[|run| - 1].f) == Run(View(recs, f), [a, b], true).0
    {
      SharedAgreement(recs, owner, fl, fileEnd, f, direct, [[a], [b]], run);
    }
  }

  lemma Symmetric(direct: bool, a: Op, b: Op)
    requires OpsApart(direct, a, b)
    ensures Writing(a) && Writing(b) && ProcessesApart(direct, [[a], [b]])
  {
    assert OpsApart(direct, b, a) by {
      assert forall s, t :: SegsApart(direct, s, t) <==> SegsApart(direct, t, s);
    }
  }

  /** The last window of an uncached write reaches to the end of its last block. */
  lemma {:induction false} LastWindow(ext: seq<Extent>, end: nat, key: Key, lo: nat, bytes: seq<byte>, q: nat)
    returns (i: nat)
    requires Within(ext, end) && bytes != [] && lo + |bytes| <= Total(ext)
    requires lo + |bytes| <= q && q / ALIGN == (lo + |bytes| - 1) / ALIGN
    ensures q < Total(ext)
    ensures i < |Transfers(ext, true, key, lo, bytes)| && Hull(Transfers(ext, true, key, lo, bytes)[i], FileOff(ext, q))
    decreases |bytes|
  {
    hide FileOff, Left, Within, Total, Stroke, InBlocks;
    var most := Min(|bytes|, Left(ext, lo));
    var w := Stroke(true, FileOff(ext, lo), most);
    StrokeLocated(ext, end, true, lo, most);
    var all := Transfers(ext, true, key, lo, bytes);
    if w.chunk == |bytes| {
      SameBlock(lo, |bytes|, q);
      i := 0;
    } else {
      var rest := Transfers(ext, true, key, lo + w.chunk, bytes[w.chunk..]);
      var j := LastWindow(ext, end, key, lo + w.chunk, bytes[w.chunk..], q);
      i := j + 1;
      assert all[i] == rest[j];
    }
  }

  lemma SameBlock(lo: nat, n: nat, q: nat)
    requires n > 0 && lo + n <= q && q / ALIGN == (lo + n - 1) / ALIGN
    ensures InBlocks(lo, n, q)
  {
  }

  lemma PlanOne(recs: map<Key, Rec>, direct: bool, a: Op)
    requires a.Write? && Accepted(recs, a)
    ensures Plan(recs, direct, a) == Transfers(recs[a.key].ext, direct, a.key, a.off, a.buf)
    ensures a.off + |a.buf| <= recs[a.key].size && a.off + |a.buf| < LIMIT
  {
    hide Transfers;
    Laws.OneHigh(a.off, a.buf);
    assert SegsOf(a)[..0] == [];
    assert PlanSegs(recs[a.key].ext, direct, a.key, []) == [];
  }

  /** Any byte of a record may be any value in a file that holds the store. */
  lemma OneByteHolds(recs: map<Key, Rec>, owner: map<Extent, (Key, nat)>, fl: seq<Extent>, fileEnd: nat,
                     f0: seq<byte>, k: Key, q: nat, v: byte)
    requires Layout(recs, owner, fl, fileEnd) && RecsOk(recs, f0) && fileEnd <= |f0| && k in recs && q < recs[k].size
    ensures q < Total(recs[k].ext) && FileOff(recs[k].ext, q) < |f0|
    ensures HoldsToo(recs, fileEnd, f0, f0[FileOff(recs[k].ext, q) := v])
  {
    hide FileOff, Owned, Separate;
    OwnedApart(recs, owner, fl, fileEnd, k);
    var x := FileOff(recs[k].ext, q);
    FileOffInside(recs[k].ext, q);
    var i :| 0 <= i < |recs[k].ext| && Has(recs[k].ext[i], x);
    assert Piece(recs[k].ext[i], fileEnd);
    var g := f0[x := v];
    forall j | j in recs ensures KeyOk(j) && RecOk(recs[j], g) {
      assert RecOk(recs[j], f0);
      forall p: nat | recs[j].size <= p < Total(recs[j].ext) ensures At(g, FileOff(recs[j].ext, p)) == 0 {
        assert FileOff(recs[j].ext, p) != x by {
          if j != k {
            NeverMeet(recs[k].ext, recs[j].ext, q, p);
          } else {
            FileOffInjective(recs[k].ext, q, p);
          }
        }
      }
    }
  }

  /** Of two disjoint uncached writes in one block, the earlier can put back the first byte of the
      later: process `p` of the two writes `a`, the other writes `b`. */
  lemma BlockLoses(recs: map<Key, Rec>, owner: map<Extent, (Key, nat)>, fl: seq<Extent>, fileEnd: nat,
                   f0: seq<byte>, a: Op, b: Op, progs: seq<seq<Patch>>, p: nat, q: nat)
    returns (f: seq<byte>, run: seq<State>)
    requires Layout(recs, owner, fl, fileEnd) && RecsOk(recs, f0) && fileEnd <= |f0|
    requires a.Write? && b.Write? && Accepted(recs, a) && Accepted(recs, b)
    requires a.key == b.key && a.buf != [] && b.buf != [] && a.off + |a.buf| <= b.off
    requires !BlocksApart(Seg(a.off, a.buf), Seg(b.off, b.buf))
    requires |progs| == 2 && p < 2 && q < 2 && p != q && AllContained(progs)
    requires progs[p] == Plan(recs, true, a)
    ensures HoldsToo(recs, fileEnd, f0, f) && Complete(run, f, progs)
    ensures b.key in recs && b.off < recs[b.key].size && View(recs, run[|run| - 1].f)[b.key][b.off] != b.buf[0]
  {
    hide Transfers, FileOff, AllContained, Runs, Owned, Separate, Writes, Hull, Plan, HoldsToo;
    PlanOne(recs, true, a);
    PlanOne(recs, true, b);
    var k := b.key;
    var ext := recs[k].ext;
    OwnedApart(recs, owner, fl, fileEnd, k);
    NearestBlock(a.off, |a.buf|, b.off, |b.buf|);
    var i := LastWindow(ext, fileEnd, k, a.off, a.buf, b.off);
    var x := FileOff(ext, b.off);
    assert forall seg | seg in SegsOf(a) :: seg == Seg(a.off, a.buf);
    PlanMisses(recs, owner, fl, fileEnd, true, a, k, b.off);
    OneByteHolds(recs, owner, fl, fileEnd, f0, k, b.off, if b.buf[0] == 0 then 1 else 0);
    f := f0[x := if b.buf[0] == 0 then 1 else 0];
    run := LosingRun(f, progs, p, q, i, x);
    assert At(f, x) != b.buf[0];
    assert View(recs, run[|run| - 1].f)[k][b.off] == At(run[|run| - 1].f, x);
  }

  lemma NearestBlock(lo: nat, n: nat, off: nat, m: nat)
    requires n > 0 && m > 0 && lo + n <= off
    requires off / ALIGN <= (lo + n - 1) / ALIGN && lo / ALIGN <= (off + m - 1) / ALIGN
    ensures off / ALIGN == (lo + n - 1) / ALIGN
  {
  }

  /** After both of two disjoint writes, each of their bytes is there. */
  lemma BothThere(m: Keyed, a: Op, b: Op)
    requires a.Write? && b.Write? && KeyOk(a.key) && a.key == b.key && a.key in m && a.buf != [] && b.buf != []
    requires a.off + |a.buf| <= |m[a.key]| && b.off + |b.buf| <= |m[a.key]|
    requires a.off + |a.buf| < LIMIT && b.off + |b.buf| < LIMIT && RangesApart(Seg(a.off, a.buf), Seg(b.off, b.buf))
    ensures var n := Run(m, [a, b], true).0;
            && a.key in n && |n[a.key]| == |m[a.key]|
            && n[a.key][a.off] == a.buf[0] && n[a.key][b.off] == b.buf[0]
  {
    assert [a, b][..1] == [a] && [a][..0] == [];
    assert Run(m, [], true).0 == m;
    var n := Apply(m, a, true).0;
    assert Run(m, [a], true).0 == n;
    assert Run(m, [a, b], true).0 == Apply(n, b, true).0;
    assert n[a.key][a.off] == a.buf[0];
  }

  /** Two disjoint writes to a store that is in the file end alike in every interleaving, whatever the
      records hold: through the page cache always, and past it if and only if they share no block. */
  lemma AgreeExactly(recs: map<Key, Rec>, owner: map<Extent, (Key, nat)>, fl: seq<Extent>, fileEnd: nat,
                     f0: seq<byte>, a: Op, b: Op)
    requires Layout(recs, owner, fl, fileEnd) && RecsOk(recs, f0) && fileEnd <= |f0|
    requires a.Write? && b.Write? && Accepted(recs, a) && Accepted(recs, b) && OpsApart(false, a, b)
    ensures Agree(recs, fileEnd, f0, false, a, b)
    ensures Agree(recs, fileEnd, f0, true, a, b) <==> OpsApart(true, a, b)
  {
    hide Layout, Agree, OpsApart, RecsOk, Accepted;
    ApartAgree(recs, owner, fl, fileEnd, f0, false, a, b);
    if OpsApart(true, a, b) {
      ApartAgree(recs, owner, fl, fileEnd, f0, true, a, b);
    } else {
      Disagree(recs, owner, fl, fileEnd, f0, a, b);
    }
  }

  lemma OneSegEach(direct: bool, a: Op, b: Op)
    requires a.Write? && b.Write?
    ensures OpsApart(direct, a, b) <==> a.key != b.key || SegsApart(direct, Seg(a.off, a.buf), Seg(b.off, b.buf))
  {
    assert Seg(a.off, a.buf) in SegsOf(a) && Seg(b.off, b.buf) in SegsOf(b);
  }

  lemma AcceptedKey(recs: map<Key, Rec>, a: Op)
    requires Writing(a) && Accepted(recs, a)
    ensures KeyOk(a.key) && a.key in recs
  {
  }

  lemma Disagree(recs: map<Key, Rec>, owner: map<Extent, (Key, nat)>, fl: seq<Extent>, fileEnd: nat,
                 f0: seq<byte>, a: Op, b: Op)
    requires Layout(recs, owner, fl, fileEnd) && RecsOk(recs, f0) && fileEnd <= |f0|
    requires a.Write? && b.Write? && Accepted(recs, a) && Accepted(recs, b)
    requires OpsApart(false, a, b) && !OpsApart(true, a, b)
    ensures !Agree(recs, fileEnd, f0, true, a, b)
  {
    hide Layout, Plan, Run, Runs, Plans, AllContained, View, OpsApart, RecsOk, HoldsToo, Accepted, Old;
    OneSegEach(false, a, b);
    OneSegEach(true, a, b);
    OneEach(recs, true, a, b);
    PlanOne(recs, true, a);
    PlanOne(recs, true, b);
    AcceptedKey(recs, a);
    PlansContained(recs, owner, fl, fileEnd, true, [[a], [b]]);
    var progs := [Plan(recs, true, a), Plan(recs, true, b)];
    var f, run;
    if a.off < b.off {
      f, run := BlockLoses(recs, owner, fl, fileEnd, f0, a, b, progs, 0, 1);
    } else {
      f, run := BlockLoses(recs, owner, fl, fileEnd, f0, b, a, progs, 1, 0);
    }
    SizeOf(recs, f, a.key);
    BothThere(View(recs, f), a, b);
    assert View(recs, run[|run| - 1].f) != Run(View(recs, f), [a, b], true).0;
  }

  /** Two neighbouring one-byte writes to any record of at least two bytes, in any store a keep-close
      wrote: a shared store accepts them uncached (src/open.c:306-331), and one can be lost. */
  lemma UncachedNeighbours(f: seq<byte>, es: seq<Entry>, owner: map<Extent, (Key, nat)>, fl: seq<Extent>, fileEnd: nat,
                           k: Key)
    requires KeptAs(f, es, owner, fl, fileEnd) && k in Table(es) && Table(es)[k].size >= 2
    ensures var a, b := Write(k, 0, [1]), Write(k, 1, [1]);
            Accepted(Table(es), a) && Accepted(Table(es), b) && OpsApart(false, a, b)
            && !Agree(Table(es), fileEnd, f, true, a, b)
  {
    hide Layout, Agree, Table, Owned, Partition, Bytes, Image, EntriesOk, KeysDistinct, OpsApart, High;
    var a, b := Write(k, 0, [1]), Write(k, 1, [1]);
    TableCold(es);
    StoreIsLayout(Table(es), owner, fl, fileEnd, f);
    ImageCovers(f, es, fileEnd);
    assert KeyOk(k);
    Laws.OneHigh(0, [1]);
    Laws.OneHigh(1, [1]);
    OneSegEach(false, a, b);
    OneSegEach(true, a, b);
    AgreeExactly(Table(es), owner, fl, fileEnd, f, a, b);
  }
}
