/** Appends to any number of keys from any number of threads (include/libspill.h:296-300): the steps of
    `Appends` on a table of records that share the lock, the allocator and the file. Seen from any one
    key, the others are what that model calls foreign. */
module ManyAppends {
  import opened Disk
  import opened Extents
  import opened Holes
  import opened Records
  import A = Appends

  /** One record: its arrays, its size, and the threads between lock phase and return. */
  datatype Own = Own(arrays: seq<seq<Extent>>, cur: nat, next: nat, size: nat, claims: seq<A.Claim>, initial: seq<byte>)

  datatype Lock = Free | Held(key: Key, payload: seq<byte>) | Clearing(key: Key, payload: seq<byte>, e: Extent, z: nat)

  datatype State = State(fl: seq<Extent>, fileEnd: nat, data: seq<byte>, recs: map<Key, Own>, lock: Lock)

  datatype Step =
    | Create(key: Key)
    | Acquire(key: Key, payload: seq<byte>)
    | Alloc(e: Extent, fl: seq<Extent>, fileEnd: nat)
    | Zero(n: nat, data: seq<byte>)
    | Push
    | Release
    | Write(key: Key, i: nat, at: nat, k: nat, data: seq<byte>)
    | Erase(key: Key, fl: seq<Extent>, fileEnd: nat, data: seq<byte>)

  const NEW: Own := Own([[]], 0, 0, 0, [], [])

  predicate Shaped(o: Own) { o.cur < |o.arrays| && o.next <= |o.arrays[o.cur]| }

  function ExtOf(o: Own): seq<Extent> {
    if Shaped(o) then o.arrays[o.cur][..o.next] else []
  }

  ghost function Scratch(l: Lock): set<Extent> {
    if l.Clearing? then {l.e} else {}
  }

  ghost function Exts(o: Own): set<Extent> { set e | e in ExtOf(o) }

  /** The extents of all records but `k`'s. */
  ghost function ExtsBut(recs: map<Key, Own>, k: Key): set<Extent> {
    set j, e | j in recs && j != k && e in ExtOf(recs[j]) :: e
  }

  ghost function AllExts(recs: map<Key, Own>): set<Extent> {
    set j, e | j in recs && e in ExtOf(recs[j]) :: e
  }

  ghost function Live(s: State): set<Extent> { AllExts(s.recs) + Scratch(s.lock) }

  /** Who holds the lock, as the threads of `k` see it. */
  function LockOf(l: Lock, k: Key): A.Lock {
    match l
    case Free => A.Unlocked
    case Held(j, payload) => if j == k then A.Locked(payload) else A.Unlocked
    case Clearing(j, payload, e, z) => if j == k then A.Zeroing(payload, e, z) else A.Unlocked
  }

  ghost function Foreign(s: State, k: Key): set<Extent> {
    ExtsBut(s.recs, k) + if s.lock.Clearing? && s.lock.key != k then {s.lock.e} else {}
  }

  /** The whole state, as the threads of `k` see it. */
  ghost function As(s: State, k: Key): A.State
    requires k in s.recs
  {
    var o := s.recs[k];
    A.State(s.fl, s.fileEnd, s.data, Foreign(s, k), o.arrays, o.cur, o.next, o.size, LockOf(s.lock, k), o.claims, o.initial)
  }

  /** One step of some thread. Only an idle record may be erased. */
  ghost predicate Steps(s: State, step: Step, t: State) {
    match step
    case Create(k) =>
      s.lock.Free? && k !in s.recs && t == s.(recs := s.recs[k := NEW])
    case Acquire(k, payload) =>
      s.lock.Free? && k in s.recs && t == s.(lock := Held(k, payload))
    case Alloc(e, fl, fileEnd) =>
      && s.lock.Held? && s.lock.key in s.recs
      && var o := s.recs[s.lock.key];
      && Total(ExtOf(o)) < o.size + |s.lock.payload|
      && e !in Live(s) && Partition(fl, Live(s) + {e}, fileEnd)
      && t == s.(lock := Clearing(s.lock.key, s.lock.payload, e, 0), fl := fl, fileEnd := fileEnd)
    case Zero(n, data) =>
      && s.lock.Clearing? && s.lock.z + n <= s.lock.e.len
      && Wrote(s.data, data, s.lock.e.foff + s.lock.z, Zeros(n))
      && t == s.(lock := s.lock.(z := s.lock.z + n), data := data)
    case Push =>
      && s.lock.Clearing? && s.lock.z == s.lock.e.len && s.lock.key in s.recs && Shaped(s.recs[s.lock.key])
      && var o := s.recs[s.lock.key];
      && var (arrays, cur) := A.PushArrays(o.arrays, o.cur, o.next, s.lock.e);
         t == s.(lock := Held(s.lock.key, s.lock.payload),
                 recs := s.recs[s.lock.key := o.(arrays := arrays, cur := cur, next := o.next + 1)])
    case Release =>
      && s.lock.Held? && s.lock.key in s.recs
      && var o := s.recs[s.lock.key];
      && o.size + |s.lock.payload| <= Total(ExtOf(o))
      && t == s.(lock := Free, recs := s.recs[s.lock.key :=
                   o.(size := o.size + |s.lock.payload|,
                      claims := o.claims + [A.Claim(o.size, s.lock.payload, o.cur, o.next, 0)])])
    case Write(k, i, at, n, data) =>
      && k in s.recs && var o := s.recs[k];
      && i < |o.claims| && var c := o.claims[i];
      && c.arr < |o.arrays| && c.count <= |o.arrays[c.arr]| && at < c.count
      && var snap := o.arrays[c.arr][..c.count]; var low := Total(snap[..at]);
      && 0 < n && c.done + n <= |c.payload|
      && low <= c.off + c.done && c.off + c.done + n <= low + snap[at].len
      && Wrote(s.data, data, snap[at].foff + (c.off + c.done - low), c.payload[c.done..c.done + n])
      && t == s.(data := data, recs := s.recs[k := o.(claims := o.claims[i := c.(done := c.done + n)])])
    case Erase(k, fl, fileEnd, data) =>
      && s.lock.Free? && k in s.recs && A.AllDone(s.recs[k].claims)
      && Partition(fl, Live(s) - Exts(s.recs[k]), fileEnd)
      && (forall x: nat | x < fileEnd :: At(data, x) == At(s.data, x))
      && t == s.(recs := s.recs - {k}, fl := fl, fileEnd := fileEnd, data := data)
  }

  /** Every key's view satisfies the invariant of `Appends`. */
  ghost predicate Inv(s: State) {
    && Partition(s.fl, Live(s), s.fileEnd)
    && (s.lock.Held? || s.lock.Clearing? ==> s.lock.key in s.recs)
    && (forall k | k in s.recs :: A.Inv(As(s, k)))
  }

  // --------------------------------------------------------------- projection

  lemma AllButOne(recs: map<Key, Own>, k: Key)
    requires k in recs
    ensures AllExts(recs) == Exts(recs[k]) + ExtsBut(recs, k)
  {
    forall e ensures e in AllExts(recs) <==> e in Exts(recs[k]) + ExtsBut(recs, k) {
      if e in AllExts(recs) {
        var j :| j in recs && e in ExtOf(recs[j]);
        assert j == k || e in ExtsBut(recs, k);
      }
      if e in ExtsBut(recs, k) {
        var j :| j in recs && j != k && e in ExtOf(recs[j]);
      }
    }
  }

  lemma LiveAs(s: State, k: Key)
    requires k in s.recs && Shaped(s.recs[k])
    ensures A.Ext(As(s, k)) == ExtOf(s.recs[k]) && A.Live(As(s, k)) == Live(s)
  {
    AllButOne(s.recs, k);
  }

  /** A step of key `j` does not show in the other keys' records. */
  ghost predicate OnlyAt(a: map<Key, Own>, b: map<Key, Own>, j: Key) {
    forall i | i != j :: (i in a <==> i in b) && (i in a ==> a[i] == b[i])
  }

  /** What `k` sees of the others after `j` changed. */
  lemma OthersSeen(a: map<Key, Own>, b: map<Key, Own>, j: Key, k: Key)
    requires OnlyAt(a, b, j) && j != k && j in a && j in b
    ensures ExtsBut(b, k) - Exts(b[j]) <= ExtsBut(a, k)
    ensures Exts(b[j]) <= ExtsBut(b, k)
    ensures Exts(a[j]) <= Exts(b[j]) ==> ExtsBut(b, k) == ExtsBut(a, k) + Exts(b[j])
  {
    forall e | e in ExtsBut(b, k) && e !in Exts(b[j]) ensures e in ExtsBut(a, k) {
      var i :| i in b && i != k && e in ExtOf(b[i]);
      assert i != j && e in ExtOf(a[i]);
    }
    if Exts(a[j]) <= Exts(b[j]) {
      forall e | e in ExtsBut(a, k) ensures e in ExtsBut(b, k) {
        var i :| i in a && i != k && e in ExtOf(a[i]);
        assert i == j ==> e in Exts(a[j]);
        assert i != j ==> e in ExtOf(b[i]);
      }
    }
  }

  lemma OthersSame(a: map<Key, Own>, b: map<Key, Own>, j: Key, k: Key)
    requires OnlyAt(a, b, j) && j != k && j in a && j in b && Exts(a[j]) == Exts(b[j])
    ensures ExtsBut(a, k) == ExtsBut(b, k)
  {
    OthersSeen(a, b, j, k);
    OthersSeen(b, a, j, k);
  }

  lemma OwnSame(a: map<Key, Own>, b: map<Key, Own>, k: Key)
    requires OnlyAt(a, b, k)
    ensures ExtsBut(a, k) == ExtsBut(b, k)
  {
  }

  /** Seen from `k`, a step is one of the steps of `Appends`, or none at all. */
  ghost predicate Seen(s: State, t: State, k: Key) {
    k in s.recs && k in t.recs && A.Shaped(As(s, k))
    && (As(t, k) == As(s, k) || exists step :: A.Steps(As(s, k), step, As(t, k)))
  }

  lemma SeenAs(s: State, t: State, k: Key, step: A.Step)
    requires k in s.recs && k in t.recs && A.Shaped(As(s, k)) && A.Steps(As(s, k), step, As(t, k))
    ensures Seen(s, t, k)
  {
  }

  lemma CreateSeen(s: State, t: State, j: Key, k: Key)
    requires Inv(s) && Steps(s, Create(j), t) && k in s.recs
    ensures Seen(s, t, k)
  {
    hide A.Inv, Partition;
    ShapedAs(s, k);
    forall e ensures e in ExtsBut(s.recs, k) <==> e in ExtsBut(t.recs, k) {
      if e in ExtsBut(s.recs, k) {
        var i :| i in s.recs && i != k && e in ExtOf(s.recs[i]);
        assert e in ExtOf(t.recs[i]);
      }
      if e in ExtsBut(t.recs, k) {
        var i :| i in t.recs && i != k && e in ExtOf(t.recs[i]);
        assert ExtOf(NEW) == [];
        assert e in ExtOf(s.recs[i]);
      }
    }
    assert ExtsBut(s.recs, k) == ExtsBut(t.recs, k);
  }

  lemma ShapedAs(s: State, k: Key)
    requires Inv(s) && k in s.recs
    ensures A.Inv(As(s, k)) && A.Shaped(As(s, k)) && Shaped(s.recs[k])
  {
    hide Partition;
    assert A.Inv(As(s, k));
  }

  lemma AcquireSeen(s: State, t: State, j: Key, payload: seq<byte>, k: Key)
    requires Inv(s) && Steps(s, Acquire(j, payload), t) && k in s.recs
    ensures Seen(s, t, k)
  {
    hide A.Inv, Partition;
    ShapedAs(s, k);
    if j == k {
      SeenAs(s, t, k, A.Acquire(payload));
    }
  }

  lemma AllocSeen(s: State, t: State, e: Extent, fl: seq<Extent>, fileEnd: nat, k: Key)
    requires Inv(s) && Steps(s, Alloc(e, fl, fileEnd), t) && k in s.recs
    ensures Seen(s, t, k)
  {
    hide A.Inv, Partition, ExtsBut, AllExts, A.Live, Live;
    ShapedAs(s, k);
    LiveAs(s, k);
    if s.lock.key == k {
      SeenAs(s, t, k, A.Alloc(e, fl, fileEnd));
    } else {
      assert Foreign(t, k) == Foreign(s, k) + {e};
      SeenAs(s, t, k, A.OtherGrow(e, fl, fileEnd));
    }
  }

  lemma ZeroSeen(s: State, t: State, n: nat, data: seq<byte>, k: Key)
    requires Inv(s) && Steps(s, Zero(n, data), t) && k in s.recs
    ensures Seen(s, t, k)
  {
    hide A.Inv, Partition, ExtsBut, AllExts, Wrote, Torn;
    ShapedAs(s, k);
    if s.lock.key == k {
      SeenAs(s, t, k, A.Zero(n, data));
    } else {
      WroteTorn(s.data, data, s.lock.e.foff, s.lock.e.len, s.lock.e.foff + s.lock.z, Zeros(n));
      SeenAs(s, t, k, A.OtherWrite(s.lock.e, data));
    }
  }

  lemma WroteTorn(f: seq<byte>, g: seq<byte>, foff: nat, len: nat, off: nat, buf: seq<byte>)
    requires Wrote(f, g, off, buf) && foff <= off && off + |buf| <= foff + len
    ensures Torn(f, g, foff, len)
  {
  }

  lemma PushSeen(s: State, t: State, k: Key)
    requires Inv(s) && Steps(s, Push, t) && k in s.recs
    ensures Seen(s, t, k)
  {
    hide A.Inv, Partition, ExtsBut, AllExts, Exts, A.PushArrays;
    ShapedAs(s, k);
    var j := s.lock.key;
    if j == k {
      OwnSame(s.recs, t.recs, k);
      SeenAs(s, t, k, A.Push);
    } else {
      PushedExts(s.recs[j], t.recs[j], s.lock.e);
      OthersSeen(s.recs, t.recs, j, k);
      OthersSeen(s.recs, s.recs, j, k);
      assert Foreign(t, k) == Foreign(s, k);
      assert As(t, k) == As(s, k);
    }
  }

  lemma PushedExts(a: Own, b: Own, e: Extent)
    requires Shaped(a)
    requires var (arrays, cur) := A.PushArrays(a.arrays, a.cur, a.next, e);
             b == a.(arrays := arrays, cur := cur, next := a.next + 1)
    ensures Shaped(b) && ExtOf(b) == ExtOf(a) + [e] && Exts(b) == Exts(a) + {e}
  {
  }

  lemma ReleaseSeen(s: State, t: State, k: Key)
    requires Inv(s) && Steps(s, Release, t) && k in s.recs
    ensures Seen(s, t, k)
  {
    hide A.Inv, Partition, ExtsBut, AllExts;
    ShapedAs(s, k);
    var j := s.lock.key;
    if j == k {
      OwnSame(s.recs, t.recs, k);
      assert ExtOf(s.recs[k]) == A.Ext(As(s, k));
      SeenAs(s, t, k, A.Release);
    } else {
      OthersSame(s.recs, t.recs, j, k);
    }
  }

  lemma OwnWriteSeen(s: State, t: State, i: nat, at: nat, n: nat, data: seq<byte>, k: Key)
    requires Inv(s) && Steps(s, Write(k, i, at, n, data), t) && k in s.recs
    ensures Seen(s, t, k)
  {
    hide A.Inv, Partition, ExtsBut, AllExts, Wrote, Total;
    ShapedAs(s, k);
    OwnSame(s.recs, t.recs, k);
    SeenAs(s, t, k, A.Write(i, at, n, data));
  }

  lemma WriteSeen(s: State, t: State, j: Key, i: nat, at: nat, n: nat, data: seq<byte>, k: Key)
    requires Inv(s) && Steps(s, Write(j, i, at, n, data), t) && k in s.recs && j != k
    ensures Seen(s, t, k)
  {
    hide A.Inv, Partition, ExtsBut, AllExts, Wrote, Torn, Exts, Total;
    ShapedAs(s, k);
    ShapedAs(s, j);
    var o := s.recs[j];
    var c := o.claims[i];
    var snap := o.arrays[c.arr][..c.count];
    SnapshotHeld(s, j, i, at);
    SameExts(s.recs[j], t.recs[j]);
    OthersSame(s.recs, t.recs, j, k);
    OthersSeen(s.recs, s.recs, j, k);
    var low := Total(snap[..at]);
    WroteTorn(s.data, data, snap[at].foff, snap[at].len, snap[at].foff + (c.off + c.done - low),
              c.payload[c.done..c.done + n]);
    assert Foreign(t, k) == Foreign(s, k);
    SeenAs(s, t, k, A.OtherWrite(snap[at], data));
  }

  lemma SameExts(a: Own, b: Own)
    requires a.arrays == b.arrays && a.cur == b.cur && a.next == b.next
    ensures Exts(a) == Exts(b)
  {
  }

  /** A snapshot names extents its record still has. */
  lemma SnapshotHeld(s: State, j: Key, i: nat, at: nat)
    requires j in s.recs && A.Inv(As(s, j)) && i < |s.recs[j].claims|
    requires var o := s.recs[j]; var c := o.claims[i];
             c.arr < |o.arrays| && c.count <= |o.arrays[c.arr]| && at < c.count
    ensures s.recs[j].arrays[s.recs[j].claims[i].arr][at] in Exts(s.recs[j])
  {
    hide Partition, A.Tiled, A.Reads, A.Separated;
    var o := s.recs[j];
    var c := o.claims[i];
    assert A.Snapshot(As(s, j), c) == A.Ext(As(s, j))[..c.count];
    assert A.Snapshot(As(s, j), c)[at] == o.arrays[c.arr][at];
    assert A.Ext(As(s, j))[at] in ExtOf(o);
  }

  lemma EraseSeen(s: State, t: State, j: Key, fl: seq<Extent>, fileEnd: nat, data: seq<byte>, k: Key)
    requires Inv(s) && Steps(s, Erase(j, fl, fileEnd, data), t) && k in s.recs && k != j
    ensures Seen(s, t, k)
  {
    hide A.Inv, Partition, ExtsBut, AllExts, Exts, Live, A.Live;
    ShapedAs(s, k);
    ShapedAs(s, j);
    LiveAs(s, k);
    Apart(s, j);
    ErasedExts(s.recs, t.recs, j, k);
    OthersSeen(s.recs, s.recs, j, k);
    SeenAs(s, t, k, A.OtherErase(Exts(s.recs[j]), fl, fileEnd, data));
  }

  lemma ErasedExts(a: map<Key, Own>, b: map<Key, Own>, j: Key, k: Key)
    requires j in a && b == a - {j} && j != k && Exts(a[j]) !! ExtsBut(a, j)
    ensures ExtsBut(b, k) == ExtsBut(a, k) - Exts(a[j])
  {
    forall e ensures e in ExtsBut(b, k) <==> e in ExtsBut(a, k) && e !in Exts(a[j]) {
      if e in ExtsBut(b, k) {
        var i :| i in b && i != k && e in ExtOf(b[i]);
        assert i in a && i != j && e in ExtOf(a[i]);
        assert e in ExtsBut(a, j);
      }
      if e in ExtsBut(a, k) && e !in Exts(a[j]) {
        var i :| i in a && i != k && e in ExtOf(a[i]);
        assert i != j && e in ExtOf(b[i]);
      }
    }
  }

  /** No extent has two records. */
  lemma Apart(s: State, j: Key)
    requires j in s.recs && A.Inv(As(s, j))
    ensures Exts(s.recs[j]) !! ExtsBut(s.recs, j)
  {
    hide Partition, A.Tiled, A.Reads, A.Snapshots;
    assert A.Ext(As(s, j)) == ExtOf(s.recs[j]);
  }

  lemma StepSeen(s: State, step: Step, t: State, k: Key)
    requires Inv(s) && Steps(s, step, t) && k in s.recs && k in t.recs
    ensures Seen(s, t, k)
  {
    hide Inv, Seen;
    match step
    case Create(j) => CreateSeen(s, t, j, k);
    case Acquire(j, payload) => AcquireSeen(s, t, j, payload, k);
    case Alloc(e, fl, fileEnd) => AllocSeen(s, t, e, fl, fileEnd, k);
    case Zero(n, data) => ZeroSeen(s, t, n, data, k);
    case Push => PushSeen(s, t, k);
    case Release => ReleaseSeen(s, t, k);
    case Write(j, i, at, n, data) =>
      if j == k {
        OwnWriteSeen(s, t, i, at, n, data, k);
      } else {
        WriteSeen(s, t, j, i, at, n, data, k);
      }
    case Erase(j, fl, fileEnd, data) => EraseSeen(s, t, j, fl, fileEnd, data, k);
  }

  // --------------------------------------------------------------------- runs

  lemma NewInv(s: State, t: State, k: Key)
    requires Inv(s) && Steps(s, Create(k), t)
    ensures A.Inv(As(t, k))
  {
    hide Partition, A.Inv;
    CreatedLive(s, t, k);
    LiveAs(t, k);
    FreshInv(As(t, k));
  }

  lemma CreatedLive(s: State, t: State, k: Key)
    requires k !in s.recs && t.recs == s.recs[k := NEW]
    ensures AllExts(t.recs) == AllExts(s.recs)
  {
    assert ExtOf(NEW) == [];
    forall e ensures e in AllExts(t.recs) <==> e in AllExts(s.recs) {
      if e in AllExts(t.recs) {
        var i :| i in t.recs && e in ExtOf(t.recs[i]);
        assert i in s.recs && e in ExtOf(s.recs[i]);
      }
      if e in AllExts(s.recs) {
        var i :| i in s.recs && e in ExtOf(s.recs[i]);
        assert e in ExtOf(t.recs[i]);
      }
    }
  }

  lemma FreshInv(a: A.State)
    requires a.arrays == [[]] && a.cur == 0 && a.next == 0 && a.size == 0 && a.claims == [] && a.initial == []
    requires a.lock == A.Unlocked && Partition(a.fl, A.Live(a), a.fileEnd)
    ensures A.Inv(a)
  {
    hide Partition;
    assert A.Ext(a) == [];
    assert Total(A.Ext(a)) == 0;
  }

  /** Partition over what is live, step by step. */
  lemma LivePartition(s: State, step: Step, t: State)
    requires Inv(s) && Steps(s, step, t)
    ensures Partition(t.fl, Live(t), t.fileEnd)
    ensures t.lock.Held? || t.lock.Clearing? ==> t.lock.key in t.recs
  {
    hide Partition, A.Inv, AllExts, ExtsBut, Exts, ExtOf, A.PushArrays, Wrote;
    match step
    case Create(k) => CreatedLive(s, t, k);
    case Acquire(_, _) =>
    case Alloc(e, _, _) => assert Live(t) == Live(s) + {e};
    case Zero(_, _) =>
    case Push =>
      var j := s.lock.key;
      PushedExts(s.recs[j], t.recs[j], s.lock.e);
      AllButOne(s.recs, j);
      AllButOne(t.recs, j);
      OwnSame(s.recs, t.recs, j);
      assert Live(t) == Live(s);
    case Release =>
      var j := s.lock.key;
      SameExts(s.recs[j], t.recs[j]);
      AllButOne(s.recs, j);
      AllButOne(t.recs, j);
      OwnSame(s.recs, t.recs, j);
    case Write(j, _, _, _, _) =>
      SameExts(s.recs[j], t.recs[j]);
      AllButOne(s.recs, j);
      AllButOne(t.recs, j);
      OwnSame(s.recs, t.recs, j);
    case Erase(j, _, _, _) =>
      ShapedAs(s, j);
      Apart(s, j);
      AllButOne(s.recs, j);
      ErasedAll(s.recs, t.recs, j);
      assert Live(t) == Live(s) - Exts(s.recs[j]);
  }

  lemma ErasedAll(a: map<Key, Own>, b: map<Key, Own>, j: Key)
    requires j in a && b == a - {j}
    ensures AllExts(b) == ExtsBut(a, j)
  {
    forall e ensures e in AllExts(b) <==> e in ExtsBut(a, j) {
      if e in AllExts(b) {
        var i :| i in b && e in ExtOf(b[i]);
        assert i in a && i != j && e in ExtOf(a[i]);
      }
      if e in ExtsBut(a, j) {
        var i :| i in a && i != j && e in ExtOf(a[i]);
        assert i in b && e in ExtOf(b[i]);
      }
    }
  }

  /** Every step of every thread of every key keeps every key's invariant. */
  lemma StepKeeps(s: State, step: Step, t: State)
    requires Inv(s) && Steps(s, step, t)
    ensures Inv(t)
  {
    hide Partition, A.Inv, As, A.Steps, Live;
    LivePartition(s, step, t);
    forall k | k in t.recs ensures A.Inv(As(t, k)) {
      if k in s.recs {
        StepSeen(s, step, t, k);
        SeenKeeps(s, t, k);
      } else {
        NewKey(s, step, t, k);
        NewInv(s, t, k);
      }
    }
  }

  lemma NewKey(s: State, step: Step, t: State, k: Key)
    requires Inv(s) && Steps(s, step, t) && k in t.recs && k !in s.recs
    ensures step == Create(k)
  {
    hide Partition, A.Inv, As, Live, Wrote, ExtOf, A.PushArrays;
  }

  /** What one step does to a key that is there before and after. */
  lemma SeenKeeps(s: State, t: State, k: Key)
    requires Seen(s, t, k) && A.Inv(As(s, k))
    ensures A.Inv(As(t, k))
    ensures A.ClaimsGrow(s.recs[k].claims, t.recs[k].claims) && t.recs[k].initial == s.recs[k].initial
  {
    hide A.Inv, A.Steps;
    if As(t, k) == As(s, k) {
      assert s.recs[k].claims == As(s, k).claims == t.recs[k].claims;
      assert s.recs[k].initial == As(s, k).initial == t.recs[k].initial;
    } else {
      var step :| A.Steps(As(s, k), step, As(t, k));
      A.StepKeeps(As(s, k), step, As(t, k));
      A.StepGrows(As(s, k), step, As(t, k));
    }
  }

  ghost predicate IsRun(run: seq<State>, steps: seq<Step>) {
    |run| == |steps| + 1 && forall i | 0 <= i < |steps| :: Steps(run[i], steps[i], run[i + 1])
  }

  lemma {:induction false} RunKeeps(run: seq<State>, steps: seq<Step>)
    requires IsRun(run, steps) && Inv(run[0])
    ensures Inv(run[|steps|])
  {
    hide Inv, Steps;
    if steps != [] {
      var n := |steps| - 1;
      RunKeeps(run[..n + 1], steps[..n]);
      assert Steps(run[n], steps[n], run[n + 1]);
      StepKeeps(run[n], steps[n], run[n + 1]);
    }
  }

  lemma {:induction false} RunGrows(run: seq<State>, steps: seq<Step>, k: Key)
    requires IsRun(run, steps) && Inv(run[0]) && forall i | 0 <= i < |run| :: k in run[i].recs
    ensures run[|steps|].recs[k].initial == run[0].recs[k].initial
  {
    hide Inv, Steps, Seen, A.Inv, As;
    if steps != [] {
      var n := |steps| - 1;
      RunKeeps(run[..n + 1], steps[..n]);
      RunGrows(run[..n + 1], steps[..n], k);
      assert Steps(run[n], steps[n], run[n + 1]);
      StepSeen(run[n], steps[n], run[n + 1], k);
      ShapedAs(run[n], k);
      SeenKeeps(run[n], run[n + 1], k);
    }
  }

  /** Distinct keys are safe from any number of threads, and so are several appends to one key: in
      every run, for every key that is not erased, the ranges its appends got tile its growth, and once
      their writes have finished it reads as their payloads in lock order, whatever happened to the
      other keys. */
  lemma EveryKeyInLockOrder(run: seq<State>, steps: seq<Step>, k: Key)
    requires IsRun(run, steps) && Inv(run[0])
    requires (forall i | 0 <= i < |run| :: k in run[i].recs) && run[0].recs[k].claims == []
    ensures var t, o := As(run[|steps|], k), run[|steps|].recs[k];
            && A.Inv(t) && A.Tiles(t, |run[0].recs[k].initial|)
            && (A.AllDone(o.claims) ==> A.Contents(t) == run[0].recs[k].initial + A.Payloads(o.claims))
  {
    hide Steps, Partition, A.Separated, A.Snapshots;
    RunKeeps(run, steps);
    RunGrows(run, steps, k);
    var t := As(run[|steps|], k);
    assert A.Inv(t);
    A.InvTiles(t);
    if A.AllDone(t.claims) {
      A.InvReads(t);
    }
  }

  /** A valid store without a memory tier, nothing in flight, is a starting point. */
  lemma StoreStarts(recs: map<Key, Rec>, owner: map<Extent, (Key, nat)>, fl: seq<Extent>, fileEnd: nat, f: seq<byte>)
    requires Owned(recs, owner) && RecsOk(recs, f) && Partition(fl, owner.Keys, fileEnd)
    requires forall k | k in recs :: recs[k].mem.None?
    ensures Inv(Opened(recs, fl, fileEnd, f))
  {
    hide Partition, Owned, RecsOk, A.Inv;
    var s := Opened(recs, fl, fileEnd, f);
    forall e ensures e in AllExts(s.recs) <==> e in owner.Keys {
      OwnedExts(recs, owner, fl, fileEnd, f, e);
    }
    assert Live(s) == owner.Keys;
    forall k | k in s.recs ensures A.Inv(As(s, k)) {
      ForeignExts(recs, owner, fl, fileEnd, f, k);
      assert Foreign(s, k) == owner.Keys - (set e | e in recs[k].ext);
      assert s.recs[k] == OpenedRec(recs[k], f);
      A.StoreStarts(recs, owner, fl, fileEnd, f, k);
    }
  }

  function OpenedRec(r: Rec, f: seq<byte>): Own {
    Own([r.ext], 0, |r.ext|, r.size, [], Content(r, f))
  }

  function Opened(recs: map<Key, Rec>, fl: seq<Extent>, fileEnd: nat, f: seq<byte>): State {
    State(fl, fileEnd, f, map k | k in recs :: OpenedRec(recs[k], f), Free)
  }

  lemma OwnedExts(recs: map<Key, Rec>, owner: map<Extent, (Key, nat)>, fl: seq<Extent>, fileEnd: nat, f: seq<byte>,
                  e: Extent)
    requires Owned(recs, owner)
    ensures e in AllExts(Opened(recs, fl, fileEnd, f).recs) <==> e in owner.Keys
  {
    var s := Opened(recs, fl, fileEnd, f);
    assert forall k | k in recs :: ExtOf(s.recs[k]) == recs[k].ext;
    if e in owner {
      var (k, i) := owner[e];
      assert recs[k].ext[i] == e && e in ExtOf(s.recs[k]);
    }
    if e in AllExts(s.recs) {
      var k :| k in s.recs && e in ExtOf(s.recs[k]);
      var i :| 0 <= i < |recs[k].ext| && recs[k].ext[i] == e;
    }
  }

  lemma ForeignExts(recs: map<Key, Rec>, owner: map<Extent, (Key, nat)>, fl: seq<Extent>, fileEnd: nat, f: seq<byte>,
                    k: Key)
    requires Owned(recs, owner) && k in recs
    ensures ExtsBut(Opened(recs, fl, fileEnd, f).recs, k) == owner.Keys - (set e | e in recs[k].ext)
  {
    var s := Opened(recs, fl, fileEnd, f);
    assert forall j | j in recs :: ExtOf(s.recs[j]) == recs[j].ext;
    forall e | e in ExtsBut(s.recs, k) ensures e in owner.Keys && e !in recs[k].ext {
      var j :| j in s.recs && j != k && e in ExtOf(s.recs[j]);
      OneOwner(recs, owner, j, k, e);
    }
    forall e | e in owner.Keys && e !in recs[k].ext ensures e in ExtsBut(s.recs, k) {
      var (j, i) := owner[e];
      assert recs[j].ext[i] == e && e in ExtOf(s.recs[j]);
    }
  }

  lemma OneOwner(recs: map<Key, Rec>, owner: map<Extent, (Key, nat)>, j: Key, k: Key, e: Extent)
    requires Owned(recs, owner) && j in recs && k in recs && j != k && e in recs[j].ext
    ensures e in owner && e !in recs[k].ext
  {
    var i :| 0 <= i < |recs[j].ext| && recs[j].ext[i] == e;
    assert owner[recs[j].ext[i]] == (j, i);
    assert forall l | 0 <= l < |recs[k].ext| :: owner[recs[k].ext[l]] == (k, l);
  }
}
