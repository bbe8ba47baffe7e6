/** What the threads of `ManyAppends` can do: the steps of `AppendsProgress` for any number of keys,
    with creation and erasure (src/store.c:242-302, 481-492, 571-599). */
module ManyProgress {
  import opened Disk
  import opened Extents
  import opened Holes
  import opened Records
  import A = Appends
  import P = AppendsProgress
  import opened ManyAppends

  // ------------------------------------------------------------- enabled steps

  /** A free lock is there for the taking, whatever transfers are due on this key or any other. */
  lemma CanAcquire(s: State, k: Key, payload: seq<byte>)
    requires s.lock == Free && k in s.recs
    ensures Steps(s, Acquire(k, payload), s.(lock := Held(k, payload)))
  {
  }

  lemma CanCreate(s: State, k: Key)
    requires s.lock == Free && k !in s.recs
    ensures Steps(s, Create(k), s.(recs := s.recs[k := Own([[]], 0, 0, 0, [], [])]))
  {
  }

  /** With room for its bytes the holder takes its place and lets go before writing any. */
  lemma CanRelease(s: State)
    requires s.lock.Held? && s.lock.key in s.recs
    requires s.recs[s.lock.key].size + |s.lock.payload| <= Total(ExtOf(s.recs[s.lock.key]))
    ensures var o := s.recs[s.lock.key];
            Steps(s, Release,
                  s.(lock := Free, recs := s.recs[s.lock.key :=
                    o.(size := o.size + |s.lock.payload|,
                       claims := o.claims + [A.Claim(o.size, s.lock.payload, o.cur, o.next, 0)])]))
  {
  }

  /** Short of room it may take whatever `ExtentHeap.Allocate` gives it. */
  lemma CanAlloc(s: State, e: Extent, fl: seq<Extent>, fileEnd: nat)
    requires s.lock.Held? && s.lock.key in s.recs
    requires s.recs[s.lock.key].size + |s.lock.payload| > Total(ExtOf(s.recs[s.lock.key]))
    requires e !in Live(s) && Partition(fl, Live(s) + {e}, fileEnd)
    ensures Steps(s, Alloc(e, fl, fileEnd),
                  s.(lock := Clearing(s.lock.key, s.lock.payload, e, 0), fl := fl, fileEnd := fileEnd))
  {
    hide Live, Partition;
  }

  /** And there always is something to give. */
  lemma CanExtend(s: State)
    requires Inv(s) && s.lock.Held?
    requires s.lock.key in s.recs
    requires s.recs[s.lock.key].size + |s.lock.payload| > Total(ExtOf(s.recs[s.lock.key]))
    ensures var o := s.recs[s.lock.key];
            var e := Extent(s.fileEnd, RoundUp(o.size + |s.lock.payload| - Total(ExtOf(o))));
            Steps(s, Alloc(e, s.fl, s.fileEnd + e.len),
                  s.(lock := Clearing(s.lock.key, s.lock.payload, e, 0), fileEnd := s.fileEnd + e.len))
  {
    hide Live, Partition, A.Inv, RoundUp, ExtOf, Total;
    var o := s.recs[s.lock.key];
    TailPartition(s.fl, Live(s), s.fileEnd, RoundUp(o.size + |s.lock.payload| - Total(ExtOf(o))));
  }

  lemma CanZero(s: State, n: nat)
    requires s.lock.Clearing? && s.lock.z + n <= s.lock.e.len
    ensures var data := WriteAt(s.data, s.lock.e.foff + s.lock.z, Zeros(n));
            Steps(s, Zero(n, data), s.(lock := s.lock.(z := s.lock.z + n), data := data))
  {
    hide WriteAt, Wrote;
  }

  lemma CanPush(s: State)
    requires Inv(s) && s.lock.Clearing? && s.lock.z == s.lock.e.len
    ensures s.lock.key in s.recs && Shaped(s.recs[s.lock.key])
    ensures var o := s.recs[s.lock.key];
            var (arrays, cur) := A.PushArrays(o.arrays, o.cur, o.next, s.lock.e);
            Steps(s, Push,
                  s.(lock := Held(s.lock.key, s.lock.payload),
                     recs := s.recs[s.lock.key := o.(arrays := arrays, cur := cur, next := o.next + 1)]))
  {
    hide Inv, A.PushArrays;
    HolderShaped(s);
  }

  lemma HolderShaped(s: State)
    requires Inv(s) && s.lock.Clearing?
    ensures s.lock.key in s.recs && Shaped(s.recs[s.lock.key])
  {
    hide Partition, A.Inv;
    ShapedAs(s, s.lock.key);
  }

  /** An unfinished transfer can go on, whoever holds the lock and for whichever key. */
  lemma CanWrite(s: State, k: Key, i: nat, want: nat) returns (at: nat, n: nat)
    requires Inv(s) && k in s.recs && i < |s.recs[k].claims| && want > 0
    requires s.recs[k].claims[i].done < |s.recs[k].claims[i].payload|
    ensures var c := s.recs[k].claims[i]; var ext := ExtOf(s.recs[k]);
            && 0 < n <= want && c.done + n <= |c.payload|
            && at < |ext| && Total(ext[..at]) <= c.off + c.done < Total(ext[..at]) + ext[at].len
            && (n == want || c.done + n == |c.payload| || c.off + c.done + n == Total(ext[..at]) + ext[at].len)
            && var data := WriteAt(s.data, ext[at].foff + (c.off + c.done - Total(ext[..at])),
                                   c.payload[c.done..c.done + n]);
               Steps(s, Write(k, i, at, n, data),
                     s.(data := data,
                        recs := s.recs[k := s.recs[k].(claims := s.recs[k].claims[i := c.(done := c.done + n)])]))
  {
    hide Partition, A.Inv, WriteAt, Wrote, Total;
    ShapedAs(s, k);
    at, n := P.CanWrite(As(s, k), i, want);
  }

  /** Freeing extents one by one ends in a partition of what is left. */
  lemma {:induction false} FreedAll(fl: seq<Extent>, live: set<Extent>, fileEnd: nat, gone: set<Extent>)
    returns (gl: seq<Extent>, newEnd: nat)
    requires Partition(fl, live, fileEnd) && gone <= live
    ensures Partition(gl, live - gone, newEnd) && newEnd <= fileEnd
    decreases gone
  {
    hide Partition;
    gl, newEnd := fl, fileEnd;
    if gone == {} {
      assert live - gone == live;
    } else {
      var e :| e in gone;
      var ml, mid := Freed(fl, live, fileEnd, e);
      gl, newEnd := FreedAll(ml, live - {e}, mid, gone - {e});
      assert live - {e} - (gone - {e}) == live - gone;
    }
  }

  lemma Freed(fl: seq<Extent>, live: set<Extent>, fileEnd: nat, e: Extent) returns (gl: seq<Extent>, newEnd: nat)
    requires Partition(fl, live, fileEnd) && e in live
    ensures Partition(gl, live - {e}, newEnd) && newEnd <= fileEnd
  {
    assert Piece(e, fileEnd);
    var i := Place0(fl, e);
    Coalesced(fl, fileEnd, i, e);
    var ml := Join(Place(fl, i, e), PlacedAt(fl, i, e));
    TrimInserted(fl, fileEnd, e, ml);
    if EndsAt(ml, fileEnd) {
      gl, newEnd := ml[..|ml| - 1], ml[|ml| - 1].foff;
    } else {
      gl, newEnd := ml, fileEnd;
    }
    ReleasePartition(fl, live, fileEnd, e, gl, newEnd);
  }

  /** Where `e` belongs in a sorted list. */
  lemma {:induction false} Place0(fl: seq<Extent>, e: Extent) returns (i: nat)
    requires Sorted(fl)
    ensures i <= |fl|
    ensures forall k | 0 <= k < i :: fl[k].foff < e.foff
    ensures forall k | i <= k < |fl| :: e.foff <= fl[k].foff
  {
    i := 0;
    if fl != [] && fl[0].foff < e.foff {
      i := Place0(fl[1..], e);
      i := i + 1;
      assert forall k | 1 <= k < |fl| :: fl[k] == fl[1..][k - 1];
    } else if fl != [] {
      assert forall k | 0 < k < |fl| :: fl[0].foff <= fl[k].foff;
    }
  }

  /** A record nothing is in flight on can be erased; its extents go back to the heap. */
  lemma CanErase(s: State, k: Key) returns (fl: seq<Extent>, fileEnd: nat)
    requires Inv(s) && s.lock == Free && k in s.recs && A.AllDone(s.recs[k].claims)
    ensures Steps(s, Erase(k, fl, fileEnd, s.data), s.(recs := s.recs - {k}, fl := fl, fileEnd := fileEnd))
  {
    hide Partition, A.Inv, Exts, AllExts;
    AllButOne(s.recs, k);
    fl, fileEnd := FreedAll(s.fl, Live(s), s.fileEnd, Exts(s.recs[k]));
  }

  // --------------------------------------------------------------------- runs

  ghost predicate Reaches(s: State, t: State) {
    exists run, steps :: IsRun(run, steps) && run[0] == s && run[|steps|] == t
  }

  lemma ReachesSelf(s: State)
    ensures Reaches(s, s)
  {
    assert IsRun([s], []);
  }

  lemma ReachesStep(s: State, t: State, step: Step, u: State)
    requires Reaches(s, t) && Inv(s) && Steps(t, step, u)
    ensures Reaches(s, u) && Inv(u)
  {
    hide Steps, Inv;
    var run, steps :| IsRun(run, steps) && run[0] == s && run[|steps|] == t;
    RunKeeps(run, steps);
    StepKeeps(t, step, u);
    var run1, steps1 := run + [u], steps + [step];
    forall j | 0 <= j < |steps1| ensures Steps(run1[j], steps1[j], run1[j + 1]) {
      if j < |steps| {
        assert Steps(run[j], steps[j], run[j + 1]);
      }
    }
    assert IsRun(run1, steps1) && run1[0] == s && run1[|steps1|] == u;
  }

  lemma {:induction false} ReachesAlong(s: State, run: seq<State>, steps: seq<Step>, n: nat)
    requires Inv(s) && IsRun(run, steps) && Reaches(s, run[0]) && n <= |steps|
    ensures Reaches(s, run[n])
    decreases n
  {
    hide Steps, Inv, Reaches;
    if n > 0 {
      ReachesAlong(s, run, steps, n - 1);
      assert Steps(run[n - 1], steps[n - 1], run[n - 1 + 1]);
      ReachesStep(s, run[n - 1], steps[n - 1], run[n]);
    }
  }

  lemma ReachesTrans(s: State, t: State, u: State)
    requires Inv(s) && Reaches(s, t) && Reaches(t, u)
    ensures Reaches(s, u)
  {
    hide Steps, Inv;
    var run, steps :| IsRun(run, steps) && run[0] == t && run[|steps|] == u;
    ReachesAlong(s, run, steps, |steps|);
  }

  /** The same records, but for where `k`'s lie and how far they reach. */
  ghost predicate SameClaims(s: State, t: State, k: Key) {
    && OnlyAt(s.recs, t.recs, k) && k in s.recs && k in t.recs
    && t.recs[k].claims == s.recs[k].claims && t.recs[k].size == s.recs[k].size
    && t.recs[k].initial == s.recs[k].initial
  }

  /** Growth ends: one extent of fresh space, zeroed and pushed, is room enough. */
  lemma Roomy(s: State) returns (u: State)
    requires Inv(s) && s.lock.Held? && s.lock.key in s.recs
    requires s.recs[s.lock.key].size + |s.lock.payload| > Total(ExtOf(s.recs[s.lock.key]))
    ensures Reaches(s, u) && Inv(u) && u.lock == s.lock && SameClaims(s, u, s.lock.key)
    ensures u.recs[s.lock.key].size + |s.lock.payload| <= Total(ExtOf(u.recs[s.lock.key]))
  {
    hide Steps, Inv, Reaches, A.PushArrays, WriteAt, Total, RoundUp, ExtOf;
    ReachesSelf(s);
    CanExtend(s);
    var k, o := s.lock.key, s.recs[s.lock.key];
    var e := Extent(s.fileEnd, RoundUp(o.size + |s.lock.payload| - Total(ExtOf(o))));
    var s1 := s.(lock := Clearing(k, s.lock.payload, e, 0), fileEnd := s.fileEnd + e.len);
    ReachesStep(s, s, Alloc(e, s.fl, s.fileEnd + e.len), s1);
    CanZero(s1, e.len);
    var data := WriteAt(s1.data, e.foff + 0, Zeros(e.len));
    var s2 := s1.(lock := s1.lock.(z := 0 + e.len), data := data);
    ReachesStep(s, s1, Zero(e.len, data), s2);
    CanPush(s2);
    var (arrays, cur) := A.PushArrays(o.arrays, o.cur, o.next, e);
    var o3 := o.(arrays := arrays, cur := cur, next := o.next + 1);
    u := s2.(lock := Held(k, s.lock.payload), recs := s2.recs[k := o3]);
    ReachesStep(s, s2, Push, u);
    PushedExts(o, o3, e);
    TotalAppend(ExtOf(o), [e]);
    P.TotalOne(e);
  }

  /** One more append to `k` is in flight, nothing of it written; no other key has changed. */
  ghost predicate OneMore(s: State, t: State, k: Key, payload: seq<byte>) {
    && OnlyAt(s.recs, t.recs, k) && k in s.recs && k in t.recs && t.recs[k].initial == s.recs[k].initial
    && |t.recs[k].claims| == |s.recs[k].claims| + 1 && t.recs[k].claims[..|s.recs[k].claims|] == s.recs[k].claims
    && var c := t.recs[k].claims[|s.recs[k].claims|];
       c.payload == payload && c.off == s.recs[k].size && c.done == 0
  }

  /** An append gets its range and lets go of the lock, whatever else is in flight. */
  lemma Admitted(s: State, k: Key, payload: seq<byte>) returns (t: State)
    requires Inv(s) && s.lock == Free && k in s.recs
    ensures Reaches(s, t) && Inv(t) && t.lock == Free && OneMore(s, t, k, payload)
  {
    hide Steps, Inv, Reaches, Total, ExtOf;
    CanAcquire(s, k, payload);
    var held := s.(lock := Held(k, payload));
    ReachesSelf(s);
    ReachesStep(s, s, Acquire(k, payload), held);
    var u := held;
    if held.recs[k].size + |payload| > Total(ExtOf(held.recs[k])) {
      u := Roomy(held);
      ReachesTrans(s, held, u);
    }
    CanRelease(u);
    var o := u.recs[k];
    t := u.(lock := Free, recs := u.recs[k := o.(size := o.size + |payload|,
                            claims := o.claims + [A.Claim(o.size, payload, o.cur, o.next, 0)])]);
    ReachesStep(s, u, Release, t);
  }

  datatype Ask = Ask(key: Key, payload: seq<byte>)

  /** The payloads asked for `k`, in order. */
  function For(asks: seq<Ask>, k: Key): seq<seq<byte>> {
    if asks == [] then []
    else
      var n := |asks| - 1;
      For(asks[..n], k) + if asks[n].key == k then [asks[n].payload] else []
  }

  /** What was asked for `k` is in flight, nothing of it written. */
  ghost predicate Opened(a: Own, b: Own, payloads: seq<seq<byte>>) {
    && |b.claims| == |a.claims| + |payloads| && b.claims[..|a.claims|] == a.claims && b.initial == a.initial
    && forall i | 0 <= i < |payloads| ::
         b.claims[|a.claims| + i].payload == payloads[i] && b.claims[|a.claims| + i].done == 0
  }

  ghost predicate AllOpened(s: State, t: State, asks: seq<Ask>) {
    t.recs.Keys == s.recs.Keys && forall k | k in s.recs :: Opened(s.recs[k], t.recs[k], For(asks, k))
  }

  lemma OpenedNone(s: State)
    ensures AllOpened(s, s, [])
  {
  }

  lemma OpenedMore(s: State, u: State, t: State, asks: seq<Ask>, ask: Ask)
    requires AllOpened(s, u, asks) && OneMore(u, t, ask.key, ask.payload)
    ensures AllOpened(s, t, asks + [ask])
  {
    hide Opened, For;
    assert forall k :: k in t.recs <==> k in u.recs;
    forall k | k in s.recs ensures Opened(s.recs[k], t.recs[k], For(asks + [ask], k)) {
      ForMore(asks, ask, k);
      assert For(asks, k) + [] == For(asks, k);
      if k == ask.key {
        OpenedOne(s.recs[k], u.recs[k], t.recs[k], For(asks, k), ask.payload);
      }
    }
  }

  lemma ForMore(asks: seq<Ask>, ask: Ask, k: Key)
    ensures For(asks + [ask], k) == For(asks, k) + if ask.key == k then [ask.payload] else []
  {
    assert (asks + [ask])[..|asks|] == asks;
  }

  lemma OpenedOne(a: Own, b: Own, c: Own, payloads: seq<seq<byte>>, payload: seq<byte>)
    requires Opened(a, b, payloads) && |c.claims| == |b.claims| + 1 && c.claims[..|b.claims|] == b.claims
    requires c.claims[|b.claims|].payload == payload && c.claims[|b.claims|].done == 0 && c.initial == b.initial
    ensures Opened(a, c, payloads + [payload])
  {
    var n, more := |a.claims|, payloads + [payload];
    assert forall i | 0 <= i < |b.claims| :: c.claims[i] == c.claims[..|b.claims|][i];
    assert c.claims[..n] == c.claims[..|b.claims|][..n];
    forall i | 0 <= i < |more| ensures c.claims[n + i].payload == more[i] && c.claims[n + i].done == 0 {
      assert i < |payloads| ==> c.claims[n + i] == b.claims[n + i] && more[i] == payloads[i];
      assert i == |payloads| ==> n + i == |b.claims|;
    }
  }

  /** Any number of appends, to one key or to many, can be in flight at once. */
  lemma {:induction false} AllInFlight(s: State, asks: seq<Ask>) returns (t: State)
    requires Inv(s) && s.lock == Free && forall i | 0 <= i < |asks| :: asks[i].key in s.recs
    ensures Reaches(s, t) && Inv(t) && t.lock == Free && AllOpened(s, t, asks)
    decreases |asks|
  {
    hide Steps, Inv, Reaches, For, Opened;
    t := s;
    ReachesSelf(s);
    if asks == [] {
      OpenedNone(s);
    } else {
      var n := |asks| - 1;
      var u := AllInFlight(s, asks[..n]);
      t := Admitted(u, asks[n].key, asks[n].payload);
      ReachesTrans(s, u, t);
      OpenedMore(s, u, t, asks[..n], asks[n]);
      assert asks[..n] + [asks[n]] == asks;
    }
  }

  /** The same appends, further on. */
  ghost predicate Onward(a: Own, b: Own) {
    |b.claims| == |a.claims| && A.Payloads(b.claims) == A.Payloads(a.claims) && b.initial == a.initial
  }

  lemma InvDone(s: State, k: Key)
    requires Inv(s) && k in s.recs
    ensures A.DoneOk(s.recs[k].claims)
  {
    hide Partition, A.Separated, A.Snapshots, A.Reads;
    ShapedAs(s, k);
  }

  /** The appends to one key can all finish, by transfers alone. */
  lemma {:induction false} KeyFinishes(s: State, k: Key) returns (t: State)
    requires Inv(s) && k in s.recs && A.DoneOk(s.recs[k].claims)
    ensures Reaches(s, t) && Inv(t) && t.lock == s.lock && OnlyAt(s.recs, t.recs, k)
    ensures k in t.recs && A.AllDone(t.recs[k].claims) && Onward(s.recs[k], t.recs[k])
    decreases P.Due(s.recs[k].claims)
  {
    hide Steps, Inv, Reaches, WriteAt, Total, A.Payloads, P.Due, ExtOf;
    ReachesSelf(s);
    t := s;
    if i: nat :| i < |s.recs[k].claims| && s.recs[k].claims[i].done < |s.recs[k].claims[i].payload| {
      var at, n := CanWrite(s, k, i, 1);
      var o, ext := s.recs[k], ExtOf(s.recs[k]);
      var c := o.claims[i];
      var data := WriteAt(s.data, ext[at].foff + (c.off + c.done - Total(ext[..at])), c.payload[c.done..c.done + n]);
      var u := s.(data := data, recs := s.recs[k := o.(claims := o.claims[i := c.(done := c.done + n)])]);
      ReachesStep(s, s, Write(k, i, at, n, data), u);
      P.DueLess(o.claims, i, n);
      P.PayloadsSame(o.claims, u.recs[k].claims);
      t := KeyFinishes(u, k);
      ReachesTrans(s, u, t);
    }
  }

  ghost predicate AllOnward(s: State, t: State) {
    t.recs.Keys == s.recs.Keys && forall k | k in s.recs :: Onward(s.recs[k], t.recs[k])
  }

  /** So can those to any set of keys. */
  lemma {:induction false} KeysFinish(s: State, ks: set<Key>) returns (t: State)
    requires Inv(s) && ks <= s.recs.Keys
    ensures Reaches(s, t) && Inv(t) && t.lock == s.lock && AllOnward(s, t)
    ensures forall k | k in ks :: k in t.recs && A.AllDone(t.recs[k].claims)
    ensures forall k | k in s.recs && k !in ks :: k in t.recs && t.recs[k] == s.recs[k]
    decreases ks
  {
    hide Steps, Inv, Reaches, A.Payloads, A.AllDone;
    ReachesSelf(s);
    t := s;
    if ks != {} {
      var k :| k in ks;
      InvDone(s, k);
      var u := KeyFinishes(s, k);
      assert forall j :: j in u.recs <==> j in s.recs;
      t := KeysFinish(u, ks - {k});
      ReachesTrans(s, u, t);
    }
  }

  /** Appends to any number of keys from any number of threads: there is a run in which all are in
      flight at once, and from there one in which all finish, each key reading as it did with its own
      payloads at its end. */
  lemma OpenThenDone(s: State, asks: seq<Ask>) returns (t: State)
    requires Inv(s) && s.lock == Free && forall i | 0 <= i < |asks| :: asks[i].key in s.recs
    requires forall k | k in s.recs :: s.recs[k].claims == []
    ensures Reaches(s, t) && Inv(t) && t.lock == Free && AllOpened(s, t, asks)
    ensures exists u :: Reaches(t, u) && Inv(u) && EachReads(s, u, asks)
  {
    hide Steps, Inv, Reaches, A.Payloads, For, P.Joined, ReadsAs;
    t := AllInFlight(s, asks);
    var u := KeysFinish(t, t.recs.Keys);
    forall k | k in s.recs ensures ReadsAs(u, k, s.recs[k].initial + P.Joined(For(asks, k))) {
      assert Opened(s.recs[k], t.recs[k], For(asks, k)) && Onward(t.recs[k], u.recs[k]);
      P.PayloadsOpened(t.recs[k].claims, For(asks, k));
      DoneReads(u, k);
    }
    assert Reaches(t, u) && EachReads(s, u, asks);
  }

  /** The same keys, each with what it had and then what was asked for it, in order. */
  ghost predicate EachReads(s: State, u: State, asks: seq<Ask>) {
    && u.recs.Keys == s.recs.Keys
    && forall k | k in s.recs :: ReadsAs(u, k, s.recs[k].initial + P.Joined(For(asks, k)))
  }

  /** Key `k` reads as `bytes`. */
  ghost predicate ReadsAs(s: State, k: Key, bytes: seq<byte>) {
    && k in s.recs && A.Shaped(As(s, k)) && s.recs[k].size <= Total(A.Ext(As(s, k)))
    && A.Contents(As(s, k)) == bytes
  }

  lemma DoneReads(s: State, k: Key)
    requires Inv(s) && k in s.recs && A.AllDone(s.recs[k].claims)
    ensures ReadsAs(s, k, s.recs[k].initial + A.Payloads(s.recs[k].claims))
  {
    hide Partition, A.Separated, A.Snapshots, A.Payloads, A.Contents, A.Reads, A.Tiled, Total;
    ShapedAs(s, k);
    A.InvReads(As(s, k));
  }
}
