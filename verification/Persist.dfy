/** Keep-close and reopen (src/open.c:395-429, 505-539). */
module Persist {
  import opened Wrappers
  import opened Disk
  import opened Extents
  import opened Holes
  import opened Allocator
  import opened Records
  import opened Spec
  import Laws
  import opened Updates
  import opened Footprint
  import opened Crc
  import opened Toc
  import opened Rebuild
  import opened Store

  function EntryOf(k: Key, r: Rec): Entry { Entry(k, r.size, r.attr, r.ext) }

  function RecOf(e: Entry): Rec { Rec(e.size, None, e.ext, 0, e.attr) }

  /** The table after the entries are inserted in order. */
  function Table(es: seq<Entry>): map<Key, Rec> {
    if es == [] then map[]
    else Table(es[..|es| - 1])[es[|es| - 1].key := RecOf(es[|es| - 1])]
  }

  ghost predicate KeysDistinct(es: seq<Entry>) {
    forall i, j | 0 <= i < j < |es| :: es[i].key != es[j].key
  }

  lemma {:induction false} TableHas(es: seq<Entry>, i: nat)
    requires KeysDistinct(es) && i < |es|
    ensures es[i].key in Table(es) && Table(es)[es[i].key] == RecOf(es[i])
  {
    if i < |es| - 1 {
      TableHas(es[..|es| - 1], i);
    }
  }

  lemma {:induction false} TableOnly(es: seq<Entry>, k: Key)
    requires k in Table(es)
    ensures exists i | 0 <= i < |es| :: es[i].key == k
  {
    var last := es[|es| - 1];
    if k != last.key {
      TableOnly(es[..|es| - 1], k);
      var i :| 0 <= i < |es| - 1 && es[..|es| - 1][i].key == k;
      assert es[i].key == k;
    }
  }

  /** Every extent of every record, in table order. */
  function AllExtents(es: seq<Entry>): seq<Extent> {
    if es == [] then [] else AllExtents(es[..|es| - 1]) + es[|es| - 1].ext
  }

  ghost predicate Matches(es: seq<Entry>, owner: map<Extent, (Key, nat)>) {
    forall i, j | 0 <= i < |es| && 0 <= j < |es[i].ext| ::
      es[i].ext[j] in owner && owner[es[i].ext[j]] == (es[i].key, j)
  }

  ghost predicate Names(es: seq<Entry>, k: Key) {
    exists i | 0 <= i < |es| :: es[i].key == k
  }

  lemma {:induction false} AllExtentsHas(es: seq<Entry>, i: nat, j: nat)
    requires i < |es| && j < |es[i].ext|
    ensures es[i].ext[j] in AllExtents(es)
  {
    if i < |es| - 1 {
      AllExtentsHas(es[..|es| - 1], i, j);
    }
  }

  lemma {:induction false} AllExtentsNamed(es: seq<Entry>, owner: map<Extent, (Key, nat)>, e: Extent)
    requires Matches(es, owner) && e in AllExtents(es)
    ensures e in owner && Names(es, owner[e].0)
  {
    var n := |es| - 1;
    if e in AllExtents(es[..n]) {
      AllExtentsNamed(es[..n], owner, e);
      var i :| 0 <= i < n && es[..n][i].key == owner[e].0;
      assert es[i].key == owner[e].0;
    } else {
      var j :| 0 <= j < |es[n].ext| && es[n].ext[j] == e;
      assert owner[es[n].ext[j]] == (es[n].key, j);
    }
  }

  lemma {:induction false} AllExtentsOwned(es: seq<Entry>, owner: map<Extent, (Key, nat)>)
    requires KeysDistinct(es) && Matches(es, owner)
    ensures Distinct(AllExtents(es))
  {
    hide Names;
    if es != [] {
      var n := |es| - 1;
      var init, last := es[..n], es[n];
      AllExtentsOwned(init, owner);
      forall e | e in AllExtents(init) ensures e !in last.ext {
        AllExtentsNamed(init, owner, e);
        NamedApart(es, owner, e);
      }
      assert forall j | 0 <= j < |last.ext| :: owner[es[n].ext[j]] == (last.key, j);
      DistinctJoin(AllExtents(init), last.ext);
    }
  }

  lemma DistinctJoin(a: seq<Extent>, b: seq<Extent>)
    requires Distinct(a) && Distinct(b) && forall e | e in a :: e !in b
    ensures Distinct(a + b)
  {
    var c := a + b;
    forall i, j | 0 <= i < j < |c| ensures c[i] != c[j] {
      assert i < |a| <= j ==> c[i] in a && c[j] in b;
    }
  }

  lemma NamedApart(es: seq<Entry>, owner: map<Extent, (Key, nat)>, e: Extent)
    requires KeysDistinct(es) && Matches(es, owner) && es != []
    requires e in owner && Names(es[..|es| - 1], owner[e].0)
    ensures e !in es[|es| - 1].ext
  {
    var n := |es| - 1;
    var i :| 0 <= i < n && es[..n][i].key == owner[e].0;
    assert es[i].key != es[n].key;
    assert forall j | 0 <= j < |es[n].ext| :: owner[es[n].ext[j]].0 == es[n].key;
  }

  lemma LiveIsAll(es: seq<Entry>, owner: map<Extent, (Key, nat)>)
    requires KeysDistinct(es) && Owned(Table(es), owner)
    ensures Distinct(AllExtents(es)) && forall e :: e in owner.Keys <==> e in AllExtents(es)
  {
    hide AllExtents, Table;
    forall i, j | 0 <= i < |es| && 0 <= j < |es[i].ext|
      ensures es[i].ext[j] in owner && owner[es[i].ext[j]] == (es[i].key, j)
    {
      TableHas(es, i);
      assert Table(es)[es[i].key].ext[j] == es[i].ext[j];
    }
    AllExtentsOwned(es, owner);
    forall e | e in AllExtents(es) ensures e in owner {
      AllExtentsNamed(es, owner, e);
    }
    forall e | e in owner.Keys ensures e in AllExtents(es) {
      var (k, j) := owner[e];
      TableOnly(es, k);
      var i :| 0 <= i < |es| && es[i].key == k;
      TableHas(es, i);
      AllExtentsHas(es, i, j);
    }
  }

  /** A file as a keep-close of a store with this table, owner map and free list leaves it. */
  ghost predicate KeptAs(f: seq<byte>, es: seq<Entry>, owner: map<Extent, (Key, nat)>, fl: seq<Extent>, fileEnd: nat) {
    && Image(f, es, fileEnd) && EntriesOk(es, fileEnd) && KeysDistinct(es)
    && Owned(Table(es), owner) && RecsOk(Table(es), f)
    && Partition(fl, owner.Keys, fileEnd) && SUPER + Bytes(owner.Keys) + Total(fl) == fileEnd
  }

  // -------------------------------------------------------------------- close

  /** The walk over the hash table: each key once, in some order. */
  method KeyOrder(recs: map<Key, Rec>) returns (order: seq<Key>)
    ensures Distinct(order) && forall k :: k in order <==> k in recs
  {
    order := [];
    var left := recs.Keys;
    while left != {}
      invariant Distinct(order) && left <= recs.Keys
      invariant forall k :: k in order <==> k in recs && k !in left
      decreases |left|
    {
      var k :| k in left;
      order := order + [k];
      left := left - {k};
    }
  }

  lemma {:induction false} TableOf(es: seq<Entry>, recs: map<Key, Rec>)
    requires KeysDistinct(es)
    requires forall i | 0 <= i < |es| :: es[i].key in recs && es[i] == EntryOf(es[i].key, recs[es[i].key])
    requires forall k | k in recs :: exists i | 0 <= i < |es| :: es[i].key == k
    requires forall k | k in recs :: recs[k].mem.None? && recs[k].busy == 0
    ensures Table(es) == recs
  {
    hide Table;
    forall k | k in Table(es) ensures k in recs && Table(es)[k] == recs[k] {
      TableOnly(es, k);
      var i :| 0 <= i < |es| && es[i].key == k;
      TableHas(es, i);
    }
    forall k | k in recs ensures k in Table(es) {
      var i :| 0 <= i < |es| && es[i].key == k;
      TableHas(es, i);
    }
  }

  lemma NoneResident(recs: map<Key, Rec>, f: seq<byte>, lru: seq<Key>, resident: nat, budget: nat)
    requires RecsOk(recs, f) && Tier(recs, lru, resident, budget) && resident == 0
    ensures forall k | k in recs :: recs[k].mem.None?
  {
    forall k | k in recs ensures recs[k].mem.None? {
      ResidentWithout(lru, recs, k);
    }
  }

  /** Writing past the heap and over the super block: the image is there, no record moved. */
  lemma Written(f: seq<byte>, g: seq<byte>, h: seq<byte>, es: seq<Entry>, fileEnd: nat)
    requires SUPER <= fileEnd <= |f| && |Serialised(es)| < LIMIT && |es| < LIMIT
    requires Wrote(f, g, fileEnd, Serialised(es))
    requires Wrote(g, h, 0, SuperBlock(fileEnd, |es|, Crc32(Serialised(es)), |Serialised(es)|))
    ensures Image(h, es, fileEnd)
    ensures |f| <= |h| && forall i: nat | SUPER <= i < fileEnd :: At(h, i) == At(f, i)
  {
    hide Serialised, SuperBlock, Crc32;
    var toc := Serialised(es);
    var sb := SuperBlock(fileEnd, |es|, Crc32(toc), |toc|);
    assert fileEnd + |toc| <= |h|;
    forall i: nat | i < SUPER ensures h[i] == sb[i] {
      assert At(h, i) == sb[i];
    }
    assert h[..SUPER] == sb;
    forall i: nat | i < |toc| ensures h[fileEnd + i] == toc[i] {
      assert At(h, fileEnd + i) == At(g, fileEnd + i) == toc[i];
    }
    assert h[fileEnd..fileEnd + |toc|] == toc;
  }

  /** The entries are the table, each record once. */
  ghost predicate Lists(es: seq<Entry>, recs: map<Key, Rec>) {
    && KeysDistinct(es)
    && (forall i | 0 <= i < |es| :: es[i].key in recs && es[i] == EntryOf(es[i].key, recs[es[i].key]))
    && (forall k | k in recs :: exists i | 0 <= i < |es| :: es[i].key == k)
  }

  /** What is listed of a record is what the record says of itself. */
  lemma ListsLaw(es: seq<Entry>, recs: map<Key, Rec>, k: Key) returns (i: nat)
    requires Lists(es, recs) && k in recs
    ensures i < |es| && es[i].key == k && es[i].size == recs[k].size
    ensures es[i].attr == recs[k].attr && es[i].ext == recs[k].ext
    ensures forall j | 0 <= j < |es| && j != i :: es[j].key != k
  {
    i :| i < |es| && es[i].key == k;
  }

  method Entries(recs: map<Key, Rec>) returns (es: seq<Entry>)
    ensures Lists(es, recs)
  {
    var order := KeyOrder(recs);
    assert forall i | 0 <= i < |order| :: order[i] in order;
    es := seq(|order|, i requires 0 <= i < |order| && order[i] in recs => EntryOf(order[i], recs[order[i]]));
    EntriesDistinct(order, es, recs);
  }

  /** The table of contents past the heap, then the super block (src/open.c:512-530). Whatever
      fails, no byte of the heap changes. */
  method WriteImage(file: File, es: seq<Entry>, end: nat) returns (ok: bool)
    requires file.Sane() && SUPER <= end <= |file.data|
    modifies file
    ensures file.Sane() && (old(file.Clean()) ==> file.Clean() && ok)
    ensures |old(file.data)| <= |file.data|
    ensures forall i: nat | SUPER <= i < end :: At(file.data, i) == At(old(file.data), i)
    ensures ok && |Serialised(es)| < LIMIT && |es| < LIMIT ==> Image(file.data, es, end)
    ensures ok && !file.direct ==> file.data == Closed(old(file.data), es, end)
  {
    hide Serialised, SuperBlock, Crc32, Image, Wrote, WriteAt;
    var toc := TocSerialise(es);
    var crc := Crc32Of(toc);
    var sb := SuperBlock(end, |es|, crc, |toc|);
    ok := file.WriteAll(end, toc);
    ghost var g := file.data;
    if ok {
      ok := file.WriteAll(0, sb);
      if ok && |toc| < LIMIT && |es| < LIMIT {
        Written(old(file.data), g, file.data, es, end);
      }
    }
  }

  /** The file a buffered close leaves. */
  function Closed(f: seq<byte>, es: seq<Entry>, end: nat): seq<byte> {
    WriteAt(WriteAt(f, end, Serialised(es)), 0, SuperBlock(end, |es|, Crc32(Serialised(es)), |Serialised(es)|))
  }

  /** Spill everything, then write the table of contents and the super block. Whatever fails on the
      way the store is intact, and a close that reports success has left a file that loads back. */
  method CloseKeep(s: Store) returns (ok: bool, es: seq<Entry>)
    requires s.Valid() && !s.shared && Idle(s.recs)
    modifies s, s.heap, s.file
    ensures s.Valid() && s.Abs() == old(s.Abs()) && SameMeta(old(s.recs), s.recs) && Lists(es, s.recs)
    ensures old(s.file.Clean()) ==> ok && s.file.Clean() && s.heap.fileEnd <= old(s.Weight())
    ensures Idle(s.recs) && (ok ==> forall k | k in s.recs :: s.recs[k].mem.None?)
    ensures ok && Fits(es, s.heap.fileEnd) ==>
              Table(es) == s.recs && KeptAs(s.file.data, es, s.owner, s.heap.fl, s.heap.fileEnd)
    ensures old(s.resident) == 0 ==> s.recs == old(s.recs) && s.heap.fileEnd == old(s.heap.fileEnd)
    ensures old(s.resident) == 0 && ok && !s.file.direct ==> s.file.data == Closed(old(s.file.data), es, s.heap.fileEnd)
  {
    hide Partition, Bytes, Owned, RecsOk, Tier, View, Image, Serialised, Table, SameMeta, Kept, Lists, Owed,
         Spills, Parted, Evicted, Fits, Closed;
    var first := s.EvictTo(0, None);
    IdleStays(old(s.recs), s.recs);
    es := Entries(s.recs);
    HeapStart(s.heap.fl, s.heap.live, s.heap.fileEnd);
    ghost var f := s.file.data;
    ok := WriteImage(s.file, es, s.heap.fileEnd);
    PartitionSeparate(s.heap.fl, s.heap.live, s.heap.fileEnd);
    CutInvisible(s.recs, s.owner, s.heap.fl, s.heap.fileEnd, f, s.file.data);
    Unchanged(s.recs, f, s.file.data);
    if first {
      AllSpilled(s.recs, s.lru, s.resident, s.budget, f);
      if ok && Fits(es, s.heap.fileEnd) {
        LoadsAsTable(es, s.recs, s.owner, s.heap.fl, s.heap.fileEnd, f);
      }
    }
    ok := ok && first;
  }

  lemma IdleStays(a: map<Key, Rec>, b: map<Key, Rec>)
    requires SameMeta(a, b) && Idle(a)
    ensures Idle(b)
  {
  }

  lemma HeapStart(fl: seq<Extent>, live: set<Extent>, fileEnd: nat)
    requires Partition(fl, live, fileEnd)
    ensures SUPER <= fileEnd
  {
  }

  lemma AllSpilled(recs: map<Key, Rec>, lru: seq<Key>, resident: nat, budget: nat, f: seq<byte>)
    requires RecsOk(recs, f) && Tier(recs, lru, resident, budget) && Idle(recs)
    requires resident <= 0 || forall k | k in lru :: Pinned(recs, k, None)
    ensures forall k | k in recs :: recs[k].mem.None? && recs[k].busy == 0
  {
    assert lru != [] ==> lru[0] in lru && !Pinned(recs, lru[0], None);
    assert resident == 0;
    NoneResident(recs, f, lru, resident, budget);
  }

  lemma EntriesDistinct(order: seq<Key>, es: seq<Entry>, recs: map<Key, Rec>)
    requires Distinct(order) && (forall k :: k in order <==> k in recs) && |es| == |order|
    requires forall i | 0 <= i < |order| :: order[i] in recs && es[i] == EntryOf(order[i], recs[order[i]])
    ensures KeysDistinct(es)
    ensures forall i | 0 <= i < |es| :: es[i].key in recs && es[i] == EntryOf(es[i].key, recs[es[i].key])
    ensures forall k | k in recs :: exists i | 0 <= i < |es| :: es[i].key == k
  {
    forall k | k in recs ensures exists i | 0 <= i < |es| :: es[i].key == k {
      assert k in order;
      var i :| 0 <= i < |order| && order[i] == k;
      assert es[i].key == k;
    }
  }

  // ------------------------------------------------------------------- reopen

  /** ls_open on a file that a keep-close wrote. */
  method Reopen(file: File, budget: nat, shared: bool,
                ghost es: seq<Entry>, ghost owner: map<Extent, (Key, nat)>, ghost fl: seq<Extent>, ghost end: nat)
    returns (s: Store?)
    requires file.Sane() && KeptAs(file.data, es, owner, fl, end) && es != []
    modifies file
    ensures file.Sane() && file.data == old(file.data) && (old(file.Clean()) ==> file.Clean() && s != null)
    ensures s != null ==>
              && fresh(s) && fresh(s.heap) && s.file == file && s.budget == budget && s.shared == shared
              && s.Valid() && s.recs == Table(es) && s.owner == owner
              && s.heap.fl == fl && s.heap.fileEnd == end
  {
    hide Partition, Bytes, Owned, RecsOk, Tier, Image, Serialised, SuperBlock, Crc32, Table, LoadImage, Parsed,
         AllExtents, Total;
    LoadsBack(file.data, es, end);
    ImageCovers(file.data, es, end);
    var loaded := ReadImage(file);
    if loaded.None? {
      return null;
    }
    var entries := loaded.value.entries;
    LiveIsAll(es, owner);
    var heap := new ExtentHeap.Reopened(file, loaded.value.fileEnd, owner.Keys);
    var ok := RebuildFreeList(heap, AllExtents(entries), fl);
    TableCold(es);
    s := new Store.Reopened(file, heap, budget, shared, Table(entries), owner);
  }

  /** The reads of ls_open: the super block, then the table of contents it points at. */
  method ReadImage(file: File) returns (r: Option<Loaded>)
    requires file.Sane() && SUPER <= |file.data|
    modifies file`script
    ensures file.Sane() && (old(file.Clean()) ==> file.Clean())
    ensures r.Some? ==> r == LoadImage(file.data)
    ensures old(file.Clean()) ==> r == LoadImage(file.data)
  {
    hide Crc32, Parsed, UnLE, GetReg, Slice;
    r := None;
    var ok, sb := file.ReadAll(0, SUPER);
    if !ok {
      return;
    }
    SliceIs(file.data, 0, SUPER);
    var f := file.data;
    assert forall i, j | 0 <= i <= j <= SUPER :: sb[i..j] == f[i..j];
    if sb[..8] != MAGIC || UnLE(sb[8..12]) != VERSION {
      return;
    }
    var tocOff, fileEnd, recorded := UnLE(sb[16..24]), UnLE(sb[32..40]), UnLE(sb[48..56]);
    if tocOff < SUPER || tocOff > |file.data| {
      return;
    }
    var tocLen := if recorded == 0 then |file.data| - tocOff else recorded;
    if tocLen > |file.data| - tocOff {
      return;
    }
    var toc;
    ok, toc := file.ReadAll(tocOff, tocLen);
    if !ok {
      return;
    }
    SliceIs(file.data, tocOff, tocLen);
    var crc := Crc32Of(toc);
    if crc != GetReg(sb[40..44]) {
      return;
    }
    var es := TocLoad(toc, UnLE(sb[24..32]), fileEnd);
    if es.Some? {
      r := Some(Loaded(es.value, fileEnd));
    }
  }

  lemma SliceIs(f: seq<byte>, off: nat, n: nat)
    requires off + n <= |f|
    ensures Slice(f, off, n) == f[off..off + n]
  {
  }

  lemma ImageCovers(f: seq<byte>, es: seq<Entry>, fileEnd: nat)
    requires Image(f, es, fileEnd)
    ensures SUPER <= fileEnd <= |f|
  {
  }

  lemma {:induction false} TableCold(es: seq<Entry>)
    ensures forall k | k in Table(es) :: Table(es)[k].mem.None? && Table(es)[k].busy == 0
  {
    if es != [] {
      TableCold(es[..|es| - 1]);
    }
  }

  /** Every number fits the field it is written to. */
  predicate Fits(es: seq<Entry>, fileEnd: nat) {
    && fileEnd < LIMIT && |es| < LIMIT && |Serialised(es)| < LIMIT
    && forall i | 0 <= i < |es| :: es[i].size < LIMIT && |es[i].ext| < 0x1_0000_0000
  }

  /** A bound a caller can work out from the operations alone. */
  const MODEST: nat := 0x800_0000_0000

  ghost predicate Modest(ops: seq<Op>) {
    |ops| <= MODEST && SUPER + Costs(map[], ops) <= MODEST
  }

  /** The bound on a run, from what its operations ask for. */
  lemma ModestEnough(ops: seq<Op>)
    requires 4096 + |ops| * (3 * (Laws.AllAsked(ops) + 4096)) <= 0x800_0000_0000
    ensures Modest(ops)
  {
    hide Costs, Laws.AllAsked;
    var each := 3 * (Laws.AllAsked(ops) + 4096);
    CostsAsked(ops, Laws.AllAsked(ops));
    AtLeast(|ops|, each);
  }

  lemma AtLeast(n: nat, c: nat)
    requires c > 0
    ensures n <= n * c
  {
  }

  lemma {:induction false} DistinctWithin(ks: seq<Key>, all: set<Key>)
    requires Distinct(ks) && forall i | 0 <= i < |ks| :: ks[i] in all
    ensures |ks| <= |all|
  {
    if ks != [] {
      var n := |ks| - 1;
      DistinctWithin(ks[..n], all - {ks[n]});
    }
  }

  lemma ListsCount(es: seq<Entry>, recs: map<Key, Rec>)
    requires Lists(es, recs)
    ensures |es| <= |recs|
  {
    var ks := seq(|es|, i requires 0 <= i < |es| => es[i].key);
    assert forall i | 0 <= i < |ks| :: ks[i] == es[i].key;
    DistinctWithin(ks, recs.Keys);
  }

  lemma {:induction false} TotalIsBytes(s: seq<Extent>)
    requires Distinct(s)
    ensures Total(s) == Bytes(set e | e in s)
  {
    if s != [] {
      var n := |s| - 1;
      var a, e := s[..n], s[n];
      TotalIsBytes(a);
      TotalTake(s, n);
      assert s[..n + 1] == s;
      BytesAdd((set x | x in a), e);
      assert (set x | x in s) == (set x | x in a) + {e};
    }
  }

  lemma {:induction false} ManyExtents(s: seq<Extent>)
    requires forall i | 0 <= i < |s| :: ALIGN <= s[i].len
    ensures ALIGN * |s| <= Total(s)
  {
    if s != [] {
      ManyExtents(s[1..]);
    }
  }

  lemma {:induction false} OnePart(es: seq<Entry>, i: nat)
    requires i < |es|
    ensures Total(es[i].ext) <= Total(AllExtents(es)) && |es[i].ext| <= |AllExtents(es)|
  {
    var n := |es| - 1;
    TotalAppend(AllExtents(es[..n]), es[n].ext);
    if i < n {
      OnePart(es[..n], i);
    }
  }

  lemma {:induction false} ExtentsLength(ext: seq<Extent>, rest: seq<byte>)
    ensures |EmitExtents(ext, rest)| == 16 * |ext| + |rest|
  {
    if ext != [] {
      ExtentsLength(ext[1..], rest);
    }
  }

  /** An entry takes at most 531 bytes, and 16 for each extent. */
  lemma {:induction false} TocLength(es: seq<Entry>)
    requires forall i | 0 <= i < |es| :: |es[i].key| <= KEY_MAX && |es[i].attr| <= ATTR_MAX
    ensures |Serialised(es)| <= 531 * |es| + 16 * |AllExtents(es)|
  {
    hide Emit;
    if es != [] {
      var n := |es| - 1;
      TocLength(es[..n]);
      SerialisedAppend(es[..n], [es[n]]);
      assert es[..n] + [es[n]] == es;
      OneLength(es[n]);
    }
  }

  lemma OneLength(e: Entry)
    requires |e.key| <= KEY_MAX && |e.attr| <= ATTR_MAX
    ensures |Serialised([e])| <= 531 + 16 * |e.ext|
  {
    hide EmitExtents;
    ExtentsLength(e.ext, []);
    assert Serialised([e]) == Emit(e, Serialised([]));
  }

  /** All extents together are no more than the heap holds. */
  lemma HeapHolds(es: seq<Entry>, recs: map<Key, Rec>, owner: map<Extent, (Key, nat)>, fl: seq<Extent>, fileEnd: nat)
    requires KeysDistinct(es) && Table(es) == recs
    requires Owned(recs, owner) && Partition(fl, owner.Keys, fileEnd) && SUPER + Bytes(owner.Keys) + Total(fl) == fileEnd
    ensures Total(AllExtents(es)) <= fileEnd && ALIGN * |AllExtents(es)| <= fileEnd
  {
    hide Table, Owned, Bytes, AllExtents, Total, Partition;
    LiveIsAll(es, owner);
    var all := AllExtents(es);
    TotalIsBytes(all);
    assert (set e | e in all) == owner.Keys;
    forall i | 0 <= i < |all| ensures ALIGN <= all[i].len {
      assert all[i] in all;
      LivePiece(fl, owner.Keys, fileEnd, all[i]);
    }
    ManyExtents(all);
  }

  /** A run that asks for no more than that leaves a store whose numbers fit. */
  lemma ModestFits(es: seq<Entry>, recs: map<Key, Rec>, owner: map<Extent, (Key, nat)>, fl: seq<Extent>,
                   fileEnd: nat, f: seq<byte>)
    requires |recs| <= MODEST && fileEnd <= MODEST && Lists(es, recs) && Idle(recs)
    requires Owned(recs, owner) && RecsOk(recs, f) && Partition(fl, owner.Keys, fileEnd)
    requires SUPER + Bytes(owner.Keys) + Total(fl) == fileEnd
    requires forall k | k in recs :: recs[k].mem.None?
    ensures Fits(es, fileEnd)
  {
    hide Owned, Partition, Bytes, Total, AllExtents, Serialised, Table, Zeroed;
    ListsCount(es, recs);
    TableOf(es, recs);
    HeapHolds(es, recs, owner, fl, fileEnd);
    forall i | 0 <= i < |es|
      ensures |es[i].key| <= KEY_MAX && |es[i].attr| <= ATTR_MAX && es[i].size < LIMIT && |es[i].ext| < 0x1_0000_0000
    {
      OnePart(es, i);
      assert KeyOk(es[i].key) && RecOk(recs[es[i].key], f);
    }
    TocLength(es);
  }

  /** The loader asks for nothing else of a valid store's table, and gives it back. */
  lemma LoadsAsTable(es: seq<Entry>, recs: map<Key, Rec>, owner: map<Extent, (Key, nat)>, fl: seq<Extent>,
                     fileEnd: nat, f: seq<byte>)
    requires Fits(es, fileEnd) && Lists(es, recs)
    requires Owned(recs, owner) && RecsOk(recs, f) && Separate(fl, owner.Keys, fileEnd)
    requires forall k | k in recs :: recs[k].mem.None? && recs[k].busy == 0
    ensures EntriesOk(es, fileEnd) && KeysDistinct(es) && Table(es) == recs
    ensures |es| < LIMIT && |Serialised(es)| < LIMIT
  {
    hide Owned, Separate, Serialised, Zeroed, Table;
    forall i | 0 <= i < |es| ensures EntryOk(es[i], fileEnd) {
      var k := es[i].key;
      OwnedApart(recs, owner, fl, fileEnd, k);
      assert KeyOk(k) && RecOk(recs[k], f);
      assert es[i].ext == recs[k].ext;
      assert forall j | 0 <= j < |es[i].ext| :: Piece(recs[k].ext[j], fileEnd);
    }
    TableOf(es, recs);
  }

  /** Keep-close then reopen is the identity for every store with at least one record: the same
      table, bytes, sizes, attributes and extents, the same end of file, and hole for hole the
      same free list; for any budget, and shared or not. */
  method CloseThenReopen(s: Store, budget: nat, shared: bool) returns (t: Store?, es: seq<Entry>)
    requires s.Valid() && !s.shared && Idle(s.recs) && s.file.Clean() && s.recs != map[]
    modifies s, s.heap, s.file
    ensures s.Valid() && s.Abs() == old(s.Abs()) && SameMeta(old(s.recs), s.recs) && Lists(es, s.recs)
    ensures s.file.Clean() && s.heap.fileEnd <= old(s.Weight())
    ensures Idle(s.recs) && forall k | k in s.recs :: s.recs[k].mem.None?
    ensures old(s.resident) == 0 ==> s.recs == old(s.recs) && s.heap.fileEnd == old(s.heap.fileEnd)
    ensures old(s.resident) == 0 && !s.file.direct ==> s.file.data == Closed(old(s.file.data), es, s.heap.fileEnd)
    ensures t != null <==> Fits(es, s.heap.fileEnd)
    ensures t != null ==>
              && fresh(t) && fresh(t.heap) && t.file == s.file && t.shared == shared && t.budget == budget
              && t.Valid() && t.Abs() == old(s.Abs()) && SameMeta(old(s.recs), t.recs)
              && t.recs == s.recs && t.heap.fl == s.heap.fl && t.heap.fileEnd == s.heap.fileEnd
  {
    hide Partition, Bytes, Owned, RecsOk, Tier, View, Image, Serialised, KeysDistinct, EntriesOk, SameMeta,
         Lists, Owed, Closed;
    var ok;
    ok, es := CloseKeep(s);
    t := null;
    if Fits(es, s.heap.fileEnd) {
      NotEmpty(old(s.Abs()), old(s.recs), old(s.file.data), s.recs, s.file.data);
      t := Reopen(s.file, budget, shared, es, s.owner, s.heap.fl, s.heap.fileEnd);
    }
  }

  lemma SameCount(recs: map<Key, Rec>, f: seq<byte>)
    ensures |View(recs, f)| == |recs|
  {
    assert View(recs, f).Keys == recs.Keys;
  }

  lemma NotEmpty(m: Keyed, a: map<Key, Rec>, f: seq<byte>, b: map<Key, Rec>, g: seq<byte>)
    requires m == View(a, f) == View(b, g) && a != map[]
    ensures b != map[]
  {
    var k :| k in a;
    assert k in View(a, f);
  }

  /** A run, a keep-close, a reopen under another budget and a second run answer as one run on one
      map: nothing of the closed store, its old table of contents included, is ever seen. */
  method AcrossReopen(file: File, first: seq<Op>, second: seq<Op>, budget0: nat, budget1: nat)
    returns (replies0: seq<Reply>, replies1: seq<Reply>)
    requires file.Sane() && file.Clean() && |file.data| == SUPER
    modifies file
    ensures replies0 == Spec.Run(map[], first, false).1
    ensures Spec.Run(map[], first, false).0 != map[] && Modest(first) ==>
              replies0 + replies1 == Spec.Run(map[], first + second, false).1
  {
    hide Partition, Bytes, Owned, RecsOk, Tier, Serialised, Apply, Traced, Fits, Lists, SameMeta, Owed, Costs;
    var s := new Store(file, budget0);
    ghost var trace0, trace1;
    replies0, trace0 := s.Run(first);
    replies1 := [];
    if s.recs != map[] {
      var t, es := CloseThenReopen(s, budget1, false);
      if Modest(first) {
        RunKeys(map[], first);
        SameCount(s.recs, s.file.data);
        ModestFits(es, s.recs, s.owner, s.heap.fl, s.heap.fileEnd, s.file.data);
      }
      if t != null {
        replies1, trace1 := t.Run(second);
        RunAppend(map[], first, second, false);
      }
    }
  }
}
