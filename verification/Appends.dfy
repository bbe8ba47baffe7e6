/** Concurrent appends to one record: any number of threads, lock phases interleaved with unlocked
    transfers, and any activity on other keys (src/store.c:242-302, 342-375, 556-600; no memory
    tier, buffered I/O). Steps over-approximate the code: what the allocator may hand out or cut
    back is what the contracts of `ExtentHeap.Allocate` and `ExtentHeap.FreeAll` allow. */
module Appends {
  import opened Disk
  import opened Extents
  import opened Holes
  import opened Allocator
  import opened Records

  /** A thread between its lock phase and its return. The snapshot is an array and a count; the
      array is looked at only when a transfer is made. */
  datatype Claim = Claim(off: nat, payload: seq<byte>, arr: nat, count: nat, done: nat)

  /** Who holds the table lock, and the extent it has allocated but not pushed, zeroed so far. */
  datatype Lock = Unlocked | Locked(payload: seq<byte>) | Zeroing(payload: seq<byte>, e: Extent, z: nat)

  /** `arrays` are all extent arrays ever allocated, retired ones included; `arrays[cur][..next]`
      is the record's list. `claims` is in lock order and keeps the finished ones. */
  datatype State = State(
    fl: seq<Extent>, fileEnd: nat, data: seq<byte>, foreign: set<Extent>,
    arrays: seq<seq<Extent>>, cur: nat, next: nat, size: nat,
    lock: Lock, claims: seq<Claim>, initial: seq<byte>)

  ghost predicate Shaped(s: State) {
    s.cur < |s.arrays| && s.next <= |s.arrays[s.cur]|
  }

  function Ext(s: State): seq<Extent>
    requires Shaped(s)
  {
    s.arrays[s.cur][..s.next]
  }

  ghost function Scratch(l: Lock): set<Extent> {
    if l.Zeroing? then {l.e} else {}
  }

  ghost function Live(s: State): set<Extent>
    requires Shaped(s)
  {
    (set e | e in Ext(s)) + s.foreign + Scratch(s.lock)
  }

  // -------------------------------------------------------------------- steps

  datatype Step =
    | Acquire(payload: seq<byte>)
    | Alloc(e: Extent, fl: seq<Extent>, fileEnd: nat)
    | Zero(n: nat, data: seq<byte>)
    | Push
    | Release
    | Write(i: nat, at: nat, k: nat, data: seq<byte>)
    | OtherGrow(e: Extent, fl: seq<Extent>, fileEnd: nat)
    | OtherWrite(e: Extent, data: seq<byte>)
    | OtherErase(gone: set<Extent>, fl: seq<Extent>, fileEnd: nat, data: seq<byte>)

  /** ext_push: in place while there is room, else into a new array, the old one retired
      (src/store.c:256-270). */
  function PushArrays(arrays: seq<seq<Extent>>, cur: nat, next: nat, e: Extent): (r: (seq<seq<Extent>>, nat))
    requires cur < |arrays| && next <= |arrays[cur]|
  {
    if next == |arrays[cur]| then
      var cap := if next == 0 then 4 else 2 * next;
      (arrays + [seq(cap, j requires 0 <= j < cap => if j < next then arrays[cur][j] else e)], |arrays|)
    else (arrays[cur := arrays[cur][next := e]], cur)
  }

  function Snapshot(s: State, c: Claim): seq<Extent>
    requires c.arr < |s.arrays| && c.count <= |s.arrays[c.arr]|
  {
    s.arrays[c.arr][..c.count]
  }

  /** One step. `Write` moves `k` bytes of claim `i` inside entry `at` of its snapshot. */
  ghost predicate Steps(s: State, step: Step, t: State)
    requires Shaped(s)
  {
    match step
    case Acquire(payload) =>
      s.lock.Unlocked? && t == s.(lock := Locked(payload))
    case Alloc(e, fl, fileEnd) =>
      && s.lock.Locked? && Total(Ext(s)) < s.size + |s.lock.payload|
      && e !in Live(s) && Partition(fl, Live(s) + {e}, fileEnd)
      && t == s.(lock := Zeroing(s.lock.payload, e, 0), fl := fl, fileEnd := fileEnd)
    case Zero(n, data) =>
      && s.lock.Zeroing? && s.lock.z + n <= s.lock.e.len
      && Wrote(s.data, data, s.lock.e.foff + s.lock.z, Zeros(n))
      && t == s.(lock := s.lock.(z := s.lock.z + n), data := data)
    case Push =>
      && s.lock.Zeroing? && s.lock.z == s.lock.e.len
      && var (arrays, cur) := PushArrays(s.arrays, s.cur, s.next, s.lock.e);
         t == s.(lock := Locked(s.lock.payload), arrays := arrays, cur := cur, next := s.next + 1)
    case Release =>
      && s.lock.Locked? && s.size + |s.lock.payload| <= Total(Ext(s))
      && t == s.(lock := Unlocked, size := s.size + |s.lock.payload|,
                 claims := s.claims + [Claim(s.size, s.lock.payload, s.cur, s.next, 0)])
    case Write(i, at, k, data) =>
      && i < |s.claims| && var c := s.claims[i];
      && c.arr < |s.arrays| && c.count <= |s.arrays[c.arr]| && at < c.count
      && var snap := Snapshot(s, c); var low := Total(snap[..at]);
      && 0 < k && c.done + k <= |c.payload|
      && low <= c.off + c.done && c.off + c.done + k <= low + snap[at].len
      && Wrote(s.data, data, snap[at].foff + (c.off + c.done - low), c.payload[c.done..c.done + k])
      && t == s.(data := data, claims := s.claims[i := c.(done := c.done + k)])
    case OtherGrow(e, fl, fileEnd) =>
      && s.lock.Unlocked? && e !in Live(s) && Partition(fl, Live(s) + {e}, fileEnd)
      && t == s.(foreign := s.foreign + {e}, fl := fl, fileEnd := fileEnd)
    case OtherWrite(e, data) =>
      && e in s.foreign && Torn(s.data, data, e.foff, e.len)
      && t == s.(data := data)
    case OtherErase(gone, fl, fileEnd, data) =>
      && s.lock.Unlocked? && gone <= s.foreign && Partition(fl, Live(s) - gone, fileEnd)
      && (forall x: nat | x < fileEnd :: At(data, x) == At(s.data, x))
      && t == s.(foreign := s.foreign - gone, fl := fl, fileEnd := fileEnd, data := data)
  }

  // ---------------------------------------------------------------- invariant

  function Part(c: Claim): (r: seq<byte>)
    requires c.done <= |c.payload|
    ensures |r| == |c.payload|
  {
    c.payload[..c.done] + Zeros(|c.payload| - c.done)
  }

  ghost predicate DoneOk(claims: seq<Claim>) {
    forall i | 0 <= i < |claims| :: claims[i].done <= |claims[i].payload|
  }

  /** What the record should read: the payloads in lock order, zero where a transfer is due. */
  ghost function Expected(initial: seq<byte>, claims: seq<Claim>): seq<byte>
    requires DoneOk(claims)
  {
    if claims == [] then initial
    else Expected(initial, claims[..|claims| - 1]) + Part(claims[|claims| - 1])
  }

  /** Each claim starts where the previous ones end, and together they reach the size. */
  ghost predicate Tiled(s: State) {
    && DoneOk(s.claims)
    && s.size == |Expected(s.initial, s.claims)|
    && forall i | 0 <= i < |s.claims| :: s.claims[i].off == |Expected(s.initial, s.claims[..i])|
  }

  /** A snapshot denotes a prefix of the record's current list, long enough for its range. */
  ghost predicate Snapshots(s: State)
    requires Shaped(s)
  {
    forall i | 0 <= i < |s.claims| ::
      && s.claims[i].arr < |s.arrays| && s.claims[i].count <= |s.arrays[s.claims[i].arr]|
      && s.claims[i].count <= s.next
      && Snapshot(s, s.claims[i]) == Ext(s)[..s.claims[i].count]
      && s.claims[i].off + |s.claims[i].payload| <= Total(Snapshot(s, s.claims[i]))
  }

  /** Every byte of the record's capacity is as expected; past the size it is zero. */
  ghost predicate Reads(s: State)
    requires Shaped(s) && DoneOk(s.claims)
  {
    forall p: nat | p < Total(Ext(s)) ::
      At(s.data, FileOff(Ext(s), p)) == At(Expected(s.initial, s.claims), p)
  }

  ghost predicate Separated(s: State)
    requires Shaped(s)
  {
    && Partition(s.fl, Live(s), s.fileEnd)
    && Distinct(Ext(s)) && (forall e | e in Ext(s) :: e !in s.foreign + Scratch(s.lock))
    && s.foreign !! Scratch(s.lock)
  }

  ghost predicate ScratchZero(s: State) {
    s.lock.Zeroing? ==>
      && s.lock.z <= s.lock.e.len
      && forall x: nat | s.lock.e.foff <= x < s.lock.e.foff + s.lock.z :: At(s.data, x) == 0
  }

  ghost predicate Inv(s: State) {
    && Shaped(s) && Separated(s) && Tiled(s) && Snapshots(s) && Reads(s) && ScratchZero(s)
    && s.size <= Total(Ext(s))
  }

  // ------------------------------------------------------------ expected bytes

  /** Lengths depend on the payloads only. */
  lemma {:induction false} ExpectedLength(initial: seq<byte>, a: seq<Claim>, b: seq<Claim>)
    requires DoneOk(a) && DoneOk(b) && |a| == |b|
    requires forall i | 0 <= i < |a| :: |a[i].payload| == |b[i].payload|
    ensures |Expected(initial, a)| == |Expected(initial, b)|
  {
    if a != [] {
      ExpectedLength(initial, a[..|a| - 1], b[..|b| - 1]);
    }
  }

  lemma WroteAppend(a: seq<byte>, b: seq<byte>, s: seq<byte>, off: nat, buf: seq<byte>)
    requires Wrote(a, b, off, buf) && |a| == |b| && off + |buf| <= |a|
    ensures Wrote(a + s, b + s, off, buf)
  {
    forall i: nat ensures At(b + s, i) == if off <= i < off + |buf| then buf[i - off] else At(a + s, i) {
      assert At(b, i) == if off <= i < off + |buf| then buf[i - off] else At(a, i);
    }
  }

  lemma PartUpdate(a: seq<byte>, c: Claim, k: nat)
    requires c.done + k <= |c.payload|
    ensures Wrote(a + Part(c), a + Part(c.(done := c.done + k)), |a| + c.done, c.payload[c.done..c.done + k])
  {
  }

  lemma ExpectedLast(initial: seq<byte>, claims: seq<Claim>)
    requires DoneOk(claims) && claims != []
    ensures var n := |claims| - 1;
            Expected(initial, claims) == Expected(initial, claims[..n]) + Part(claims[n])
  {
  }

  /** A transfer moves the expected bytes of its own range from zero to the payload. */
  lemma {:induction false} ExpectedUpdate(initial: seq<byte>, claims: seq<Claim>, i: nat, k: nat)
    requires DoneOk(claims) && i < |claims| && claims[i].done + k <= |claims[i].payload|
    ensures var c := claims[i]; var after := claims[i := c.(done := c.done + k)];
            && DoneOk(after) && |Expected(initial, after)| == |Expected(initial, claims)|
            && |Expected(initial, claims[..i])| + |c.payload| <= |Expected(initial, claims)|
            && Wrote(Expected(initial, claims), Expected(initial, after), |Expected(initial, claims[..i])| + c.done,
                     c.payload[c.done..c.done + k])
  {
    hide Wrote, Part, Expected;
    var c := claims[i];
    var after := claims[i := c.(done := c.done + k)];
    var n := |claims| - 1;
    assert DoneOk(after);
    ExpectedLast(initial, claims);
    ExpectedLast(initial, after);
    if i == n {
      assert after[..n] == claims[..n];
      PartUpdate(Expected(initial, claims[..n]), c, k);
    } else {
      ExpectedUpdate(initial, claims[..n], i, k);
      assert claims[..n][..i] == claims[..i];
      assert after[..n] == claims[..n][i := c.(done := c.done + k)];
      WroteAppend(Expected(initial, claims[..n]), Expected(initial, after[..n]), Part(claims[n]),
                  |Expected(initial, claims[..i])| + c.done, c.payload[c.done..c.done + k]);
    }
  }

  /** The payloads themselves, in lock order. */
  function Payloads(claims: seq<Claim>): seq<byte> {
    if claims == [] then [] else Payloads(claims[..|claims| - 1]) + claims[|claims| - 1].payload
  }

  lemma {:induction false} ExpectedDone(initial: seq<byte>, claims: seq<Claim>)
    requires forall i | 0 <= i < |claims| :: claims[i].done == |claims[i].payload|
    ensures DoneOk(claims) && Expected(initial, claims) == initial + Payloads(claims)
  {
    if claims != [] {
      ExpectedDone(initial, claims[..|claims| - 1]);
      var last := claims[|claims| - 1];
      assert last.payload[..last.done] + Zeros(0) == last.payload;
    }
  }

  // --------------------------------------------------------- file changes

  lemma LiveApart(s: State, e: Extent)
    requires Shaped(s) && Separated(s) && e in s.foreign + Scratch(s.lock)
    ensures AllApart([e], Ext(s))
  {
    forall j | 0 <= j < |Ext(s)| ensures Apart([e][0], Ext(s)[j]) {
      assert Ext(s)[j] in Ext(s);
      assert Ext(s)[j] in Live(s) && e in Live(s) && e != Ext(s)[j];
    }
  }

  lemma ExtDisjoint(s: State)
    requires Shaped(s) && Separated(s)
    ensures Disjoint(Ext(s)) && Within(Ext(s), s.fileEnd)
  {
    forall i, j | 0 <= i < j < |Ext(s)| ensures Apart(Ext(s)[i], Ext(s)[j]) {
      assert Ext(s)[i] in Live(s) && Ext(s)[j] in Live(s);
    }
    forall i | 0 <= i < |Ext(s)| ensures Piece(Ext(s)[i], s.fileEnd) {
      assert Ext(s)[i] in Live(s);
    }
  }

  /** A transfer of one thread, through its own snapshot, is a logical write to the record as
      it is now. */
  lemma WriteReads(s: State, i: nat, at: nat, k: nat, data: seq<byte>, t: State)
    requires Shaped(s) && Separated(s) && Tiled(s) && Snapshots(s) && Reads(s)
    requires Steps(s, Write(i, at, k, data), t)
    ensures DoneOk(t.claims) && Reads(t)
  {
    hide Partition, Distinct, Torn, Expected, Separated, Disjoint, Within;
    var c := s.claims[i];
    var snap := Snapshot(s, c);
    var ext := Ext(s);
    var buf := c.payload[c.done..c.done + k];
    assert snap == ext[..c.count];
    assert snap[..at] == ext[..at] && snap[at] == ext[at];
    ExtDisjoint(s);
    PieceWrote(s.data, data, ext, at, c.off + c.done, buf);
    ExpectedUpdate(s.initial, s.claims, i, k);
    assert Ext(t) == ext;
  }

  lemma WriteTiled(s: State, i: nat, k: nat, t: State)
    requires Tiled(s) && i < |s.claims| && s.claims[i].done + k <= |s.claims[i].payload|
    requires t.claims == s.claims[i := s.claims[i].(done := s.claims[i].done + k)]
    requires t.initial == s.initial && t.size == s.size
    ensures Tiled(t)
  {
    assert DoneOk(t.claims);
    ExpectedLength(s.initial, s.claims, t.claims);
    forall j | 0 <= j < |t.claims| ensures t.claims[j].off == |Expected(t.initial, t.claims[..j])| {
      ExpectedLength(s.initial, s.claims[..j], t.claims[..j]);
    }
  }

  lemma WriteKeeps(s: State, i: nat, at: nat, k: nat, data: seq<byte>, t: State)
    requires Inv(s) && Steps(s, Write(i, at, k, data), t)
    ensures Inv(t)
  {
    hide Partition, Distinct, Reads, Tiled, Expected, Torn, Wrote;
    var c := s.claims[i];
    WriteReads(s, i, at, k, data, t);
    WriteTiled(s, i, k, t);
    assert Ext(t) == Ext(s) && Live(t) == Live(s);
    if s.lock.Zeroing? {
      var snap := Snapshot(s, c);
      assert snap[at] == Ext(s)[at] && Ext(s)[at] in Ext(s);
      ScratchUntouched(s, Ext(s)[at], Total(snap[..at]), c.off + c.done, c.payload[c.done..c.done + k], data);
    }
  }

  lemma ScratchUntouched(s: State, d: Extent, low: nat, pos: nat, buf: seq<byte>, data: seq<byte>)
    requires Shaped(s) && Separated(s) && s.lock.Zeroing? && ScratchZero(s) && d in Ext(s)
    requires low <= pos && pos + |buf| <= low + d.len
    requires Wrote(s.data, data, d.foff + (pos - low), buf)
    ensures forall x: nat | s.lock.e.foff <= x < s.lock.e.foff + s.lock.z :: At(data, x) == 0
  {
    LiveApart(s, s.lock.e);
    var j :| 0 <= j < |Ext(s)| && Ext(s)[j] == d;
    assert Apart([s.lock.e][0], Ext(s)[j]);
  }

  /** Changes inside extents that are not the record's are invisible to it. */
  lemma ForeignReads(s: State, e: Extent, data: seq<byte>)
    requires Shaped(s) && Separated(s) && DoneOk(s.claims) && Reads(s)
    requires e in s.foreign + Scratch(s.lock) && Torn(s.data, data, e.foff, e.len)
    ensures Reads(s.(data := data))
  {
    hide Partition, Expected, Torn, Distinct;
    LiveApart(s, e);
    SameTorn(Ext(s), e, s.data, data);
  }

  lemma ZeroKeeps(s: State, n: nat, data: seq<byte>, t: State)
    requires Inv(s) && Steps(s, Zero(n, data), t)
    ensures Inv(t)
  {
    hide Partition, Distinct, Expected, Snapshots;
    ForeignReads(s, s.lock.e, data);
    assert Scratch(t.lock) == Scratch(s.lock) && Ext(t) == Ext(s) && Live(t) == Live(s);
    TiledSame(s, t);
    SnapshotsSame(s, t);
  }

  lemma OtherWriteKeeps(s: State, e: Extent, data: seq<byte>, t: State)
    requires Inv(s) && Steps(s, OtherWrite(e, data), t)
    ensures Inv(t)
  {
    hide Partition, Distinct, Expected, Snapshots, Reads;
    ForeignReads(s, e, data);
    assert Ext(t) == Ext(s) && Live(t) == Live(s);
    TiledSame(s, t);
    SnapshotsSame(s, t);
    if s.lock.Zeroing? {
      TwoApart(s, e, s.lock.e);
    }
  }

  lemma TwoApart(s: State, a: Extent, b: Extent)
    requires Shaped(s) && Separated(s) && a in Live(s) && b in Live(s) && a != b
    ensures Apart(a, b)
  {
  }

  lemma TiledSame(s: State, t: State)
    requires Tiled(s) && t.claims == s.claims && t.initial == s.initial && t.size == s.size
    ensures Tiled(t)
  {
  }

  lemma SnapshotsSame(s: State, t: State)
    requires Shaped(s) && Snapshots(s) && t.claims == s.claims && t.arrays == s.arrays && t.cur == s.cur && t.next == s.next
    ensures Shaped(t) && Snapshots(t)
  {
  }

  /** Pushing writes at or past every snapshot's count, or into a new array. */
  lemma PushSnapshots(s: State, t: State)
    requires Shaped(s) && Snapshots(s) && Steps(s, Push, t)
    ensures Shaped(t) && Snapshots(t) && Ext(t) == Ext(s) + [s.lock.e]
  {
    var (arrays, cur) := PushArrays(s.arrays, s.cur, s.next, s.lock.e);
    assert Ext(t) == Ext(s) + [s.lock.e];
    forall i | 0 <= i < |s.claims|
      ensures arrays[s.claims[i].arr][..s.claims[i].count] == s.arrays[s.claims[i].arr][..s.claims[i].count]
    {
    }
    forall i | 0 <= i < |s.claims|
      ensures Snapshot(t, t.claims[i]) == Ext(t)[..t.claims[i].count]
    {
      assert Ext(t)[..t.claims[i].count] == Ext(s)[..t.claims[i].count];
    }
  }

  lemma PushReads(s: State, t: State)
    requires Shaped(s) && Shaped(t) && DoneOk(s.claims) && Reads(s) && ScratchZero(s)
    requires s.size == |Expected(s.initial, s.claims)| <= Total(Ext(s))
    requires s.lock.Zeroing? && s.lock.z == s.lock.e.len
    requires Ext(t) == Ext(s) + [s.lock.e] && t.data == s.data && t.claims == s.claims && t.initial == s.initial
    ensures Reads(t) && Total(Ext(t)) >= Total(Ext(s))
  {
    hide Expected;
    var ext, e := Ext(s), s.lock.e;
    TotalAppend(ext, [e]);
    assert Total([e]) == e.len + Total([]);
    forall p: nat | p < Total(Ext(t))
      ensures At(t.data, FileOff(Ext(t), p)) == At(Expected(t.initial, t.claims), p)
    {
      if p < Total(ext) {
        FileOffPrefix(ext, [e], p);
      } else {
        FileOffSuffix(ext, [e], p);
        assert FileOff([e], p - Total(ext)) == e.foff + (p - Total(ext));
      }
    }
  }

  lemma DistinctPush(a: seq<Extent>, e: Extent)
    requires Distinct(a) && e !in a
    ensures Distinct(a + [e])
  {
  }

  lemma PushKeeps(s: State, t: State)
    requires Inv(s) && Steps(s, Push, t)
    ensures Inv(t)
  {
    hide Partition, Expected, Snapshots, Reads, PushArrays, Distinct;
    PushSnapshots(s, t);
    PushReads(s, t);
    TiledSame(s, t);
    assert Live(t) == Live(s);
    DistinctPush(Ext(s), s.lock.e);
  }

  lemma ReleaseTiled(s: State, t: State)
    requires Tiled(s) && s.lock.Locked? && t.initial == s.initial && t.size == s.size + |s.lock.payload|
    requires t.claims == s.claims + [Claim(s.size, s.lock.payload, s.cur, s.next, 0)]
    ensures Tiled(t)
    ensures forall p: nat :: At(Expected(t.initial, t.claims), p) == At(Expected(s.initial, s.claims), p)
  {
    hide Part, Expected;
    var n := |s.claims|;
    assert t.claims[..n] == s.claims;
    assert forall i | 0 <= i < n :: t.claims[..i] == s.claims[..i];
    ExpectedLast(t.initial, t.claims);
    NothingDone(t.claims[n]);
  }

  lemma NothingDone(c: Claim)
    requires c.done == 0
    ensures Part(c) == Zeros(|c.payload|)
  {
  }

  lemma ReleaseKeeps(s: State, t: State)
    requires Inv(s) && Steps(s, Release, t)
    ensures Inv(t)
  {
    hide Partition, Distinct, Expected;
    ReleaseTiled(s, t);
    assert Ext(t) == Ext(s) && Live(t) == Live(s);
    assert forall i | 0 <= i < |s.claims| :: Snapshot(t, t.claims[i]) == Snapshot(s, s.claims[i]);
  }

  lemma EraseKeeps(s: State, gone: set<Extent>, fl: seq<Extent>, fileEnd: nat, data: seq<byte>, t: State)
    requires Inv(s) && Steps(s, OtherErase(gone, fl, fileEnd, data), t)
    ensures Inv(t)
  {
    hide Partition, Distinct, Tiled, Expected, Snapshots;
    TiledSame(s, t);
    SnapshotsSame(s, t);
    assert Ext(t) == Ext(s);
    assert Live(t) == Live(s) - gone;
    ExtDisjoint(t);
    SameBelow(Ext(t), s.data, data, fileEnd);
  }

  lemma OtherGrowKeeps(s: State, e: Extent, fl: seq<Extent>, fileEnd: nat, t: State)
    requires Inv(s) && Steps(s, OtherGrow(e, fl, fileEnd), t)
    ensures Inv(t)
  {
    hide Partition, Distinct, Tiled, Expected, Snapshots;
    TiledSame(s, t);
    SnapshotsSame(s, t);
    assert Ext(t) == Ext(s) && Live(t) == Live(s) + {e};
    assert forall d | d in Ext(s) :: d in Live(s);
  }

  lemma AllocKeeps(s: State, e: Extent, fl: seq<Extent>, fileEnd: nat, t: State)
    requires Inv(s) && Steps(s, Alloc(e, fl, fileEnd), t)
    ensures Inv(t)
  {
    hide Partition, Distinct, Tiled, Expected, Snapshots;
    TiledSame(s, t);
    SnapshotsSame(s, t);
    assert Ext(t) == Ext(s) && Live(t) == Live(s) + {e};
    assert forall d | d in Ext(s) :: d in Live(s);
  }

  lemma AcquireKeeps(s: State, payload: seq<byte>, t: State)
    requires Inv(s) && Steps(s, Acquire(payload), t)
    ensures Inv(t)
  {
    hide Partition, Distinct, Tiled, Expected, Snapshots;
    TiledSame(s, t);
    SnapshotsSame(s, t);
    assert Ext(t) == Ext(s) && Live(t) == Live(s);
  }

  /** Every step keeps the invariant. */
  lemma StepKeeps(s: State, step: Step, t: State)
    requires Inv(s) && Steps(s, step, t)
    ensures Inv(t)
  {
    hide Inv, Steps;
    match step
    case Acquire(payload) => AcquireKeeps(s, payload, t);
    case Alloc(e, fl, fileEnd) => AllocKeeps(s, e, fl, fileEnd, t);
    case Zero(n, data) => ZeroKeeps(s, n, data, t);
    case Push => PushKeeps(s, t);
    case Release => ReleaseKeeps(s, t);
    case Write(i, at, k, data) => WriteKeeps(s, i, at, k, data, t);
    case OtherGrow(e, fl, fileEnd) => OtherGrowKeeps(s, e, fl, fileEnd, t);
    case OtherWrite(e, data) => OtherWriteKeeps(s, e, data, t);
    case OtherErase(gone, fl, fileEnd, data) => EraseKeeps(s, gone, fl, fileEnd, data, t);
  }

  // --------------------------------------------------------------------- runs

  ghost predicate IsRun(run: seq<State>, steps: seq<Step>) {
    && |run| == |steps| + 1
    && (forall i | 0 <= i < |run| :: Shaped(run[i]))
    && (forall i | 0 <= i < |steps| :: Steps(run[i], steps[i], run[i + 1]))
  }

  /** Claims are only ever added, and only their progress changes. */
  ghost predicate ClaimsGrow(a: seq<Claim>, b: seq<Claim>) {
    && |a| <= |b|
    && forall i | 0 <= i < |a| :: b[i] == a[i].(done := b[i].done)
  }

  lemma StepGrows(s: State, step: Step, t: State)
    requires Inv(s) && Steps(s, step, t)
    ensures Shaped(t) && Ext(s) <= Ext(t) && ClaimsGrow(s.claims, t.claims) && t.initial == s.initial
  {
    hide Partition, Expected, Reads, Tiled, Distinct, Wrote, Torn;
    if step.Push? {
      PushSnapshots(s, t);
    }
  }

  /** Every reachable state satisfies the invariant, and the record's list and its claims only
      grow. */
  lemma {:induction false} RunKeeps(run: seq<State>, steps: seq<Step>)
    requires IsRun(run, steps) && Inv(run[0])
    ensures var t := run[|steps|];
            Inv(t) && Ext(run[0]) <= Ext(t) && ClaimsGrow(run[0].claims, t.claims) && t.initial == run[0].initial
  {
    hide Inv, Steps;
    if steps != [] {
      var n := |steps| - 1;
      RunKeeps(run[..n + 1], steps[..n]);
      assert Steps(run[n], steps[n], run[n + 1]);
      StepKeeps(run[n], steps[n], run[n + 1]);
      StepGrows(run[n], steps[n], run[n + 1]);
    }
  }

  /** A snapshot denotes the same extents through any number of later steps, whatever happens to
      the record's array meanwhile. */
  lemma SnapshotStable(run: seq<State>, steps: seq<Step>, i: nat)
    requires IsRun(run, steps) && Inv(run[0]) && i < |run[0].claims|
    ensures var s, t := run[0], run[|steps|];
            && i < |t.claims| && t.claims[i] == s.claims[i].(done := t.claims[i].done)
            && s.claims[i].arr < |s.arrays| && s.claims[i].count <= |s.arrays[s.claims[i].arr]|
            && t.claims[i].arr < |t.arrays| && t.claims[i].count <= |t.arrays[t.claims[i].arr]|
            && Snapshot(t, t.claims[i]) == Snapshot(s, s.claims[i])
  {
    hide Steps, Separated, Reads, Tiled;
    RunKeeps(run, steps);
    var s, t := run[0], run[|steps|];
    assert Snapshot(s, s.claims[i]) == Ext(s)[..s.claims[i].count];
    assert Snapshot(t, t.claims[i]) == Ext(t)[..t.claims[i].count];
    assert Ext(t)[..|Ext(s)|] == Ext(s);
  }

  /** What a reader of the whole record gets. */
  ghost function Contents(s: State): seq<byte>
    requires Shaped(s) && s.size <= Total(Ext(s))
  {
    Gather(Ext(s), s.data)[..s.size]
  }

  ghost predicate AllDone(claims: seq<Claim>) {
    forall i | 0 <= i < |claims| :: claims[i].done == |claims[i].payload|
  }

  /** The ranges handed out are disjoint and tile the growth of the record. */
  ghost predicate Tiles(s: State, before: nat) {
    && (forall i | 0 <= i < |s.claims| :: s.claims[i].off == before + |Payloads(s.claims[..i])|)
    && (forall i, j | 0 <= i < j < |s.claims| :: s.claims[i].off + |s.claims[i].payload| <= s.claims[j].off)
    && s.size == before + |Payloads(s.claims)|
  }

  lemma InvTiles(s: State)
    requires Tiled(s)
    ensures Tiles(s, |s.initial|)
  {
    hide Payloads, Expected;
    forall i | 0 <= i <= |s.claims| ensures |Expected(s.initial, s.claims[..i])| == |s.initial| + |Payloads(s.claims[..i])| {
      ExpectedSize(s.initial, s.claims[..i]);
    }
    assert s.claims[..|s.claims|] == s.claims;
    forall i, j | 0 <= i < j < |s.claims| ensures s.claims[i].off + |s.claims[i].payload| <= s.claims[j].off {
      PayloadsGrow(s.claims, i, j);
    }
  }

  lemma InvReads(s: State)
    requires Shaped(s) && Tiled(s) && Reads(s) && s.size <= Total(Ext(s)) && AllDone(s.claims)
    ensures Contents(s) == s.initial + Payloads(s.claims)
  {
    hide Payloads, Expected;
    ExpectedDone(s.initial, s.claims);
    assert Contents(s) == Expected(s.initial, s.claims);
  }

  /** However lock phases and transfers interleave, the ranges handed out tile the growth of the
      record, and once every transfer is finished the record reads as what it held before
      followed by the payloads in lock order. */
  lemma AppendsInLockOrder(run: seq<State>, steps: seq<Step>)
    requires IsRun(run, steps) && Inv(run[0]) && run[0].claims == []
    ensures var t := run[|steps|];
            && Inv(t) && Tiles(t, |run[0].initial|)
            && (AllDone(t.claims) ==> Contents(t) == run[0].initial + Payloads(t.claims))
  {
    hide Steps, Separated, Tiled, Reads, Snapshots, Tiles;
    RunKeeps(run, steps);
    var t := run[|steps|];
    InvTiles(t);
    if AllDone(t.claims) {
      InvReads(t);
    }
  }

  lemma {:induction false} ExpectedSize(initial: seq<byte>, claims: seq<Claim>)
    requires DoneOk(claims)
    ensures |Expected(initial, claims)| == |initial| + |Payloads(claims)|
  {
    if claims != [] {
      ExpectedSize(initial, claims[..|claims| - 1]);
    }
  }

  lemma {:induction false} PayloadsGrow(claims: seq<Claim>, i: nat, j: nat)
    requires i < j <= |claims|
    ensures |Payloads(claims[..i])| + |claims[i].payload| <= |Payloads(claims[..j])|
    decreases j
  {
    assert claims[..j][..j - 1] == claims[..j - 1];
    if i < j - 1 {
      PayloadsGrow(claims, i, j - 1);
    }
  }

  /** Any record of a valid store without a memory tier is a starting point. */
  lemma StoreStarts(recs: map<Key, Rec>, owner: map<Extent, (Key, nat)>, fl: seq<Extent>, fileEnd: nat,
                    f: seq<byte>, k: Key)
    requires Owned(recs, owner) && RecsOk(recs, f) && Partition(fl, owner.Keys, fileEnd)
    requires k in recs && recs[k].mem.None?
    ensures var mine := set e | e in recs[k].ext;
            var s := State(fl, fileEnd, f, owner.Keys - mine, [recs[k].ext], 0, |recs[k].ext|, recs[k].size,
                           Unlocked, [], Content(recs[k], f));
            Inv(s) && Contents(s) == Content(recs[k], f)
  {
    hide Partition, Owned, Distinct, Content;
    var mine := set e | e in recs[k].ext;
    OwnedErase(recs, owner, k);
    var s := State(fl, fileEnd, f, owner.Keys - mine, [recs[k].ext], 0, |recs[k].ext|, recs[k].size,
                   Unlocked, [], Content(recs[k], f));
    assert Ext(s) == recs[k].ext;
    assert Live(s) == owner.Keys;
    RecordReads(recs[k], f);
    assert RecOk(recs[k], f);
    assert Contents(s) == Content(recs[k], f);
  }

  lemma RecordReads(r: Rec, f: seq<byte>)
    requires RecOk(r, f) && r.mem.None?
    ensures r.size <= Total(r.ext)
    ensures forall p: nat | p < Total(r.ext) :: At(f, FileOff(r.ext, p)) == At(Content(r, f), p)
  {
  }
}
