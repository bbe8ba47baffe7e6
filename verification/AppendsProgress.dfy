/** What the threads of `Appends` can do: in every reachable state of one record some step of each
    append is enabled, the lock is never held across a transfer, and so any number of appends to one
    key can be in flight at once and all of them can finish (src/store.c:242-302, 571-599). */
module AppendsProgress {
  import opened Disk
  import opened Extents
  import opened Holes
  import opened Allocator
  import opened Appends

  // ------------------------------------------------------------- enabled steps

  /** A free lock is there for the taking, however many transfers are still to be made. */
  lemma CanAcquire(s: State, payload: seq<byte>)
    requires Shaped(s) && s.lock == Unlocked
    ensures Steps(s, Acquire(payload), s.(lock := Locked(payload)))
  {
  }

  /** With room for its bytes the holder takes its place, adds them to the size and lets go before
      any of them is written. */
  lemma CanRelease(s: State)
    requires Shaped(s) && s.lock.Locked? && s.size + |s.lock.payload| <= Total(Ext(s))
    ensures Steps(s, Release,
                  s.(lock := Unlocked, size := s.size + |s.lock.payload|,
                     claims := s.claims + [Claim(s.size, s.lock.payload, s.cur, s.next, 0)]))
  {
  }

  /** Short of room it may take whatever `ExtentHeap.Allocate` gives it. */
  lemma CanAlloc(s: State, e: Extent, fl: seq<Extent>, fileEnd: nat)
    requires Shaped(s) && s.lock.Locked? && s.size + |s.lock.payload| > Total(Ext(s))
    requires e !in Live(s) && Partition(fl, Live(s) + {e}, fileEnd)
    ensures Steps(s, Alloc(e, fl, fileEnd), s.(lock := Zeroing(s.lock.payload, e, 0), fl := fl, fileEnd := fileEnd))
  {
  }

  /** And there always is something to give: fresh space at the end of the file, as much as it lacks. */
  lemma CanExtend(s: State)
    requires Inv(s) && s.lock.Locked? && s.size + |s.lock.payload| > Total(Ext(s))
    ensures var e := Extent(s.fileEnd, RoundUp(s.size + |s.lock.payload| - Total(Ext(s))));
            Steps(s, Alloc(e, s.fl, s.fileEnd + e.len),
                  s.(lock := Zeroing(s.lock.payload, e, 0), fileEnd := s.fileEnd + e.len))
  {
    hide Partition, Distinct, Tiled, Reads, Snapshots, RoundUp, Total;
    TailPartition(s.fl, Live(s), s.fileEnd, RoundUp(s.size + |s.lock.payload| - Total(Ext(s))));
  }

  /** The rest of the extent, or any part of it, can be zeroed. */
  lemma CanZero(s: State, n: nat)
    requires Shaped(s) && s.lock.Zeroing? && s.lock.z + n <= s.lock.e.len
    ensures var data := WriteAt(s.data, s.lock.e.foff + s.lock.z, Zeros(n));
            Steps(s, Zero(n, data), s.(lock := s.lock.(z := s.lock.z + n), data := data))
  {
    hide WriteAt, Wrote;
  }

  /** Once zeroed it joins the record's list. */
  lemma CanPush(s: State)
    requires Shaped(s) && s.lock.Zeroing? && s.lock.z == s.lock.e.len
    ensures var (arrays, cur) := PushArrays(s.arrays, s.cur, s.next, s.lock.e);
            Steps(s, Push, s.(lock := Locked(s.lock.payload), arrays := arrays, cur := cur, next := s.next + 1))
  {
    hide PushArrays;
  }

  /** The entry of an extent list that holds logical position `p`. */
  lemma {:induction false} Holder(ext: seq<Extent>, p: nat) returns (at: nat)
    requires p < Total(ext)
    ensures at < |ext| && Total(ext[..at]) <= p < Total(ext[..at]) + ext[at].len
  {
    if p < ext[0].len {
      at := 0;
    } else {
      var rest := Holder(ext[1..], p - ext[0].len);
      at := rest + 1;
      assert ext[..at][1..] == ext[1..][..rest];
    }
  }

  /** An unfinished transfer can go on, whoever holds the lock: asked for `want` bytes, it moves as
      many of them as it has and as lie in one extent, to where the record has them. */
  lemma CanWrite(s: State, i: nat, want: nat) returns (at: nat, k: nat)
    requires Inv(s) && i < |s.claims| && s.claims[i].done < |s.claims[i].payload| && want > 0
    ensures var c := s.claims[i]; var ext := Ext(s);
            && 0 < k <= want && c.done + k <= |c.payload|
            && at < |ext| && Total(ext[..at]) <= c.off + c.done < Total(ext[..at]) + ext[at].len
            && (k == want || c.done + k == |c.payload| || c.off + c.done + k == Total(ext[..at]) + ext[at].len)
            && var data := WriteAt(s.data, ext[at].foff + (c.off + c.done - Total(ext[..at])),
                                   c.payload[c.done..c.done + k]);
               Steps(s, Write(i, at, k, data), s.(data := data, claims := s.claims[i := c.(done := c.done + k)]))
  {
    hide Separated, Tiled, Reads, WriteAt, Wrote, Total;
    var c := s.claims[i];
    var snap, ext := Snapshot(s, c), Ext(s);
    assert snap == ext[..c.count];
    at := Holder(snap, c.off + c.done);
    assert snap[..at] == ext[..at] && snap[at] == ext[at];
    k := Min(want, Min(|c.payload| - c.done, Total(ext[..at]) + ext[at].len - (c.off + c.done)));
  }

  /** The other keys' threads are not held up either. */
  lemma OthersCan(s: State, e: Extent, gone: set<Extent>, fl: seq<Extent>, fileEnd: nat, data: seq<byte>)
    requires Shaped(s)
    ensures e in s.foreign && Torn(s.data, data, e.foff, e.len) ==> Steps(s, OtherWrite(e, data), s.(data := data))
    ensures s.lock == Unlocked && e !in Live(s) && Partition(fl, Live(s) + {e}, fileEnd) ==>
              Steps(s, OtherGrow(e, fl, fileEnd), s.(foreign := s.foreign + {e}, fl := fl, fileEnd := fileEnd))
    ensures s.lock == Unlocked && gone <= s.foreign && Partition(fl, Live(s) - gone, fileEnd)
            && (forall x: nat | x < fileEnd :: At(data, x) == At(s.data, x)) ==>
              Steps(s, OtherErase(gone, fl, fileEnd, data),
                    s.(foreign := s.foreign - gone, fl := fl, fileEnd := fileEnd, data := data))
  {
    hide Partition, Torn;
  }

  // --------------------------------------------------------------------- runs

  /** There is a run from `s` to `t`. */
  ghost predicate Reaches(s: State, t: State) {
    exists run, steps :: IsRun(run, steps) && run[0] == s && run[|steps|] == t
  }

  lemma ReachesSelf(s: State)
    requires Shaped(s)
    ensures Reaches(s, s)
  {
    assert IsRun([s], []);
  }

  lemma ReachesStep(s: State, t: State, step: Step, u: State)
    requires Reaches(s, t) && Inv(s) && Shaped(t) && Steps(t, step, u)
    ensures Reaches(s, u) && Inv(u)
  {
    hide Steps, Inv;
    var run, steps :| IsRun(run, steps) && run[0] == s && run[|steps|] == t;
    RunKeeps(run, steps);
    StepKeeps(t, step, u);
    assert Shaped(u) by {
      InvShaped(u);
    }
    var run1, steps1 := run + [u], steps + [step];
    forall j | 0 <= j < |steps1| ensures Steps(run1[j], steps1[j], run1[j + 1]) {
      if j < |steps| {
        assert Steps(run[j], steps[j], run[j + 1]);
      }
    }
    assert IsRun(run1, steps1) && run1[0] == s && run1[|steps1|] == u;
  }

  lemma InvShaped(s: State)
    requires Inv(s)
    ensures Shaped(s)
  {
  }

  lemma {:induction false} ReachesAlong(s: State, run: seq<State>, steps: seq<Step>, n: nat)
    requires Inv(s) && IsRun(run, steps) && Reaches(s, run[0]) && n <= |steps|
    ensures Reaches(s, run[n])
    decreases n
  {
    hide Steps, Inv, Reaches;
    if n > 0 {
      ReachesAlong(s, run, steps, n - 1);
      assert Steps(run[n - 1], steps[n - 1], run[n - 1 + 1]);
      ReachesStep(s, run[n - 1], steps[n - 1], run[n]);
    }
  }

  lemma ReachesTrans(s: State, t: State, u: State)
    requires Inv(s) && Reaches(s, t) && Reaches(t, u)
    ensures Reaches(s, u)
  {
    hide Steps, Inv;
    var run, steps :| IsRun(run, steps) && run[0] == t && run[|steps|] == u;
    ReachesAlong(s, run, steps, |steps|);
  }

  /** From the lock to a place in line: whoever holds the lock gets its range and lets go, without a
      single byte of any append being written. */
  lemma Served(s: State) returns (t: State)
    requires Inv(s) && s.lock.Locked?
    ensures Reaches(s, t) && Inv(t) && t.lock == Unlocked && t.size == s.size + |s.lock.payload|
    ensures |t.claims| == |s.claims| + 1 && t.claims[..|s.claims|] == s.claims
    ensures var c := t.claims[|s.claims|]; c.payload == s.lock.payload && c.off == s.size && c.done == 0
    ensures t.initial == s.initial
  {
    hide Steps, Inv, Reaches, PushArrays, WriteAt, Total, RoundUp;
    InvShaped(s);
    ReachesSelf(s);
    var u := s;
    if s.size + |s.lock.payload| > Total(Ext(s)) {
      u := Roomy(s);
    }
    InvShaped(u);
    CanRelease(u);
    t := u.(lock := Unlocked, size := u.size + |u.lock.payload|,
            claims := u.claims + [Claim(u.size, u.lock.payload, u.cur, u.next, 0)]);
    ReachesStep(s, u, Release, t);
  }

  /** Growth ends: one extent of fresh space, zeroed and pushed, is room enough. */
  lemma Roomy(s: State) returns (u: State)
    requires Inv(s) && s.lock.Locked? && s.size + |s.lock.payload| > Total(Ext(s))
    ensures Reaches(s, u) && Inv(u) && u.lock == s.lock && u.size == s.size && u.claims == s.claims
    ensures u.initial == s.initial
    ensures u.size + |u.lock.payload| <= Total(Ext(u))
  {
    hide Steps, Inv, Reaches, PushArrays, WriteAt, Total, RoundUp;
    InvShaped(s);
    ReachesSelf(s);
    CanExtend(s);
    var e := Extent(s.fileEnd, RoundUp(s.size + |s.lock.payload| - Total(Ext(s))));
    var s1 := s.(lock := Zeroing(s.lock.payload, e, 0), fileEnd := s.fileEnd + e.len);
    ReachesStep(s, s, Alloc(e, s.fl, s.fileEnd + e.len), s1);
    InvShaped(s1);
    CanZero(s1, e.len);
    var data := WriteAt(s1.data, e.foff + 0, Zeros(e.len));
    var s2 := s1.(lock := s1.lock.(z := 0 + e.len), data := data);
    ReachesStep(s, s1, Zero(e.len, data), s2);
    InvShaped(s2);
    CanPush(s2);
    var (arrays, cur) := PushArrays(s2.arrays, s2.cur, s2.next, s2.lock.e);
    u := s2.(lock := Locked(s2.lock.payload), arrays := arrays, cur := cur, next := s2.next + 1);
    ReachesStep(s, s2, Push, u);
    Grows(s2, u);
    assert Ext(s2) == Ext(s);
  }

  lemma Grows(s: State, u: State)
    requires Inv(s) && Inv(u) && Steps(s, Push, u)
    ensures Total(Ext(u)) == Total(Ext(s)) + s.lock.e.len
  {
    hide Partition, Reads, Tiled, Separated, PushArrays, Total;
    PushSnapshots(s, u);
    TotalAppend(Ext(s), [s.lock.e]);
    TotalOne(s.lock.e);
  }

  lemma TotalOne(e: Extent)
    ensures Total([e]) == e.len
  {
  }

  /** Appends of `payloads`, in this order, all in flight: none of their bytes is written yet. */
  ghost predicate Opened(s: State, t: State, payloads: seq<seq<byte>>) {
    && |t.claims| == |s.claims| + |payloads| && t.claims[..|s.claims|] == s.claims && t.initial == s.initial
    && forall i | 0 <= i < |payloads| ::
         t.claims[|s.claims| + i].payload == payloads[i] && t.claims[|s.claims| + i].done == 0
  }

  lemma OpenedNone(s: State)
    ensures Opened(s, s, [])
  {
  }

  lemma OpenedMore(s: State, u: State, t: State, payloads: seq<seq<byte>>)
    requires payloads != [] && Opened(s, u, payloads[..|payloads| - 1]) && t.initial == u.initial
    requires |t.claims| == |u.claims| + 1 && t.claims[..|u.claims|] == u.claims
    requires t.claims[|u.claims|].payload == payloads[|payloads| - 1] && t.claims[|u.claims|].done == 0
    ensures Opened(s, t, payloads)
  {
    var n, init := |s.claims|, payloads[..|payloads| - 1];
    assert forall i | 0 <= i < |u.claims| :: t.claims[i] == t.claims[..|u.claims|][i];
    assert t.claims[..n] == t.claims[..|u.claims|][..n];
    forall i | 0 <= i < |payloads| ensures t.claims[n + i].payload == payloads[i] && t.claims[n + i].done == 0 {
      assert i < |init| ==> t.claims[n + i] == u.claims[n + i] && payloads[i] == init[i];
      assert i == |init| ==> n + i == |u.claims|;
    }
  }

  /** Any number of appends to one record can be in flight at once. */
  lemma {:induction false} AllInFlight(s: State, payloads: seq<seq<byte>>) returns (t: State)
    requires Inv(s) && s.lock == Unlocked
    ensures Reaches(s, t) && Inv(t) && t.lock == Unlocked && Opened(s, t, payloads)
    decreases |payloads|
  {
    hide Steps, Inv, Reaches, Opened;
    InvShaped(s);
    t := s;
    ReachesSelf(s);
    if payloads == [] {
      OpenedNone(s);
    } else {
      var n := |payloads| - 1;
      var u := AllInFlight(s, payloads[..n]);
      InvShaped(u);
      CanAcquire(u, payloads[n]);
      var held := u.(lock := Locked(payloads[n]));
      ReachesStep(s, u, Acquire(payloads[n]), held);
      t := Served(held);
      ReachesTrans(s, held, t);
      OpenedMore(s, u, t, payloads);
    }
  }

  /** Bytes still to be written. */
  function Due(claims: seq<Claim>): nat
    requires DoneOk(claims)
  {
    if claims == [] then 0
    else
      var n := |claims| - 1;
      Due(claims[..n]) + (|claims[n].payload| - claims[n].done)
  }

  lemma {:induction false} DueLess(claims: seq<Claim>, i: nat, k: nat)
    requires DoneOk(claims) && i < |claims| && claims[i].done + k <= |claims[i].payload|
    ensures var after := claims[i := claims[i].(done := claims[i].done + k)];
            DoneOk(after) && Due(after) + k == Due(claims)
  {
    var after := claims[i := claims[i].(done := claims[i].done + k)];
    var n := |claims| - 1;
    if i == n {
      assert after[..n] == claims[..n];
    } else {
      DueLess(claims[..n], i, k);
      assert after[..n] == claims[..n][i := claims[i].(done := claims[i].done + k)];
    }
  }

  /** From any state every append in flight can finish: transfers alone lead there, and each leaves
      fewer bytes due. */
  lemma {:induction false} AllFinish(s: State) returns (t: State)
    requires Inv(s) && DoneOk(s.claims)
    ensures Reaches(s, t) && Inv(t) && AllDone(t.claims) && t.lock == s.lock && t.size == s.size
    ensures t.initial == s.initial
    ensures |t.claims| == |s.claims| && Payloads(t.claims) == Payloads(s.claims)
    decreases Due(s.claims)
  {
    hide Steps, Inv, Reaches, WriteAt, Total, Payloads, Due;
    InvShaped(s);
    ReachesSelf(s);
    t := s;
    if i: nat :| i < |s.claims| && s.claims[i].done < |s.claims[i].payload| {
      var at, k := CanWrite(s, i, 1);
      var c := s.claims[i];
      var data := WriteAt(s.data, Ext(s)[at].foff + (c.off + c.done - Total(Ext(s)[..at])),
                          c.payload[c.done..c.done + k]);
      var u := s.(data := data, claims := s.claims[i := c.(done := c.done + k)]);
      ReachesStep(s, s, Write(i, at, k, data), u);
      DueLess(s.claims, i, k);
      PayloadsSame(s.claims, u.claims);
      t := AllFinish(u);
      ReachesTrans(s, u, t);
    }
  }

  lemma {:induction false} PayloadsSame(a: seq<Claim>, b: seq<Claim>)
    requires |a| == |b| && forall i | 0 <= i < |a| :: a[i].payload == b[i].payload
    ensures Payloads(a) == Payloads(b)
  {
    if a != [] {
      PayloadsSame(a[..|a| - 1], b[..|b| - 1]);
    }
  }

  lemma {:induction false} PayloadsOpened(claims: seq<Claim>, payloads: seq<seq<byte>>)
    requires |claims| == |payloads| && forall i | 0 <= i < |claims| :: claims[i].payload == payloads[i]
    ensures Payloads(claims) == Joined(payloads)
    decreases |claims|
  {
    if claims != [] {
      PayloadsOpened(claims[..|claims| - 1], payloads[..|payloads| - 1]);
    }
  }

  function Joined(payloads: seq<seq<byte>>): seq<byte> {
    if payloads == [] then [] else Joined(payloads[..|payloads| - 1]) + payloads[|payloads| - 1]
  }

  /** Appends from any number of threads: there is a run in which all of them are in flight at once,
      each with its place and nothing written, and from there a run in which all finish and the record
      reads as it did with their payloads at its end. */
  lemma OpenThenDone(s: State, payloads: seq<seq<byte>>) returns (t: State)
    requires Inv(s) && s.lock == Unlocked && s.claims == []
    ensures Reaches(s, t) && Inv(t) && t.lock == Unlocked && Opened(s, t, payloads)
    ensures exists u :: Reaches(t, u) && Inv(u) && AllDone(u.claims) && u.size <= Total(Ext(u))
                        && Contents(u) == s.initial + Joined(payloads)
  {
    hide Steps, Reaches, Payloads, Joined, Total, Separated, Reads, Snapshots, Contents;
    t := AllInFlight(s, payloads);
    var u := AllFinish(t);
    InvReads(u);
    PayloadsOpened(t.claims, payloads);
    assert Reaches(t, u);
  }
}
