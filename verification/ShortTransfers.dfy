/** When the uncached loops are all-or-nothing. They count a whole chunk as done however few bytes a
    system call moved (src/store.c:59-85), so they are only when the calls move enough; the plain
    loops, which go on where a short transfer stopped, always are. */
module ShortTransfers {
  import opened Disk

  // -------------------------------------------------------- windows are apart

  lemma NextWindow(off: nat, n: nat, i: nat)
    requires Done(off, n, i) < n && Done(off, n, i + 1) < n
    ensures Nth(off, n, i).base + Nth(off, n, i).span == Nth(off, n, i + 1).base
  {
    hide Done;
  }

  lemma DoneBefore(off: nat, n: nat, i: nat)
    requires Done(off, n, i + 1) < n
    ensures Done(off, n, i) < n
  {
    hide WindowAt;
  }

  lemma {:induction false} WindowsApart(off: nat, n: nat, i: nat, j: nat)
    requires i < j && Done(off, n, j) < n
    ensures Done(off, n, i) < n && Nth(off, n, i).base + Nth(off, n, i).span <= Nth(off, n, j).base
    decreases j
  {
    hide Nth, Done;
    DoneBefore(off, n, j - 1);
    NextWindow(off, n, j - 1);
    if i < j - 1 {
      WindowsApart(off, n, i, j - 1);
    }
  }

  predicate InHull(w: Window, x: nat) { w.base <= x < w.base + w.span }

  /** A byte in no window is left alone. */
  lemma {:induction false} BouncedOutside(f: seq<byte>, off: nat, buf: seq<byte>, counts: seq<Count>, x: nat)
    requires Counted(off, |buf|, counts)
    requires forall i | 0 <= i < |counts| :: !InHull(Nth(off, |buf|, i), x)
    ensures At(Bounced(f, off, buf, counts), x) == At(f, x)
    decreases |counts|
  {
    hide Done, Nth, Chunk, Iteration, At;
    if counts != [] {
      var i := |counts| - 1;
      BouncedOutside(f, off, buf, counts[..i], x);
      IterationAt(Bounced(f, off, buf, counts[..i]), Nth(off, |buf|, i), Chunk(off, buf, i),
                  counts[i].read, counts[i].written, x);
    }
  }

  /** A byte of window `i` is as that iteration alone would leave it. */
  lemma {:induction false} BouncedInside(f: seq<byte>, off: nat, buf: seq<byte>, counts: seq<Count>, i: nat, x: nat)
    requires Counted(off, |buf|, counts) && i < |counts| && InHull(Nth(off, |buf|, i), x)
    ensures At(Bounced(f, off, buf, counts), x)
         == At(Iteration(f, Nth(off, |buf|, i), Chunk(off, buf, i), counts[i].read, counts[i].written), x)
    decreases |counts|
  {
    hide Done, Nth, Chunk, Iteration, At;
    var j := |counts| - 1;
    var g := Bounced(f, off, buf, counts[..j]);
    var w := Nth(off, |buf|, j);
    IterationAt(g, w, Chunk(off, buf, j), counts[j].read, counts[j].written, x);
    if i < j {
      WindowsApart(off, |buf|, i, j);
      BouncedInside(f, off, buf, counts[..j], i, x);
    } else {
      forall k | 0 <= k < j ensures !InHull(Nth(off, |buf|, k), x) {
        WindowsApart(off, |buf|, k, j);
      }
      BouncedOutside(f, off, buf, counts[..j], x);
      IterationAt(f, w, Chunk(off, buf, j), counts[j].read, counts[j].written, x);
    }
  }

  // ------------------------------------------------------------------ writing

  /** A finished loop with these counts replaces exactly the range, whatever the bytes and whatever the
      file, if it is long enough for every count to come about. */
  ghost predicate WritesExactly(off: nat, n: nat, counts: seq<Count>)
    requires Counted(off, n, counts)
  {
    forall f: seq<byte>, buf: seq<byte> | |buf| == n && Inside(off, n, |f|) ::
      Wrote(f, Bounced(f, off, buf, counts), off, buf)
  }

  function Ones(n: nat): (z: seq<byte>)
    ensures |z| == n && forall i: nat | i < n :: At(z, i) == 1
  {
    seq(n, _ => 1)
  }

  function Twos(n: nat): (z: seq<byte>)
    ensures |z| == n && forall i | 0 <= i < n :: z[i] == 2
  {
    seq(n, _ => 2)
  }

  /** Long enough for every window. */
  lemma Roomy(off: nat, n: nat)
    ensures Inside(off, n, off + n + ALIGN)
  {
    hide Done;
    forall i: nat | Done(off, n, i) < n ensures Nth(off, n, i).base + Nth(off, n, i).span <= off + n + ALIGN {
    }
  }

  /** If window `i` moves too little, some byte of it is wrong in a file of ones overwritten with
      twos. */
  lemma ShortLoses(f: seq<byte>, off: nat, buf: seq<byte>, counts: seq<Count>, i: nat)
    requires Counted(off, |buf|, counts) && i < |counts| && !Enough(Nth(off, |buf|, i), counts[i])
    requires Inside(off, |buf|, |f|) && f == Ones(|f|) && buf == Twos(|buf|)
    ensures !Wrote(f, Bounced(f, off, buf, counts), off, buf)
  {
    hide Done, Nth, Bounced, Iteration;
    var n := |buf|;
    var w, a, b := Nth(off, n, i), counts[i].read, counts[i].written;
    var x: nat :=
      if b < w.skew + w.chunk then w.base + Max(b, w.skew)
      else if a < w.skew then w.base + a
      else w.base + Max(a, w.skew + w.chunk);
    BouncedInside(f, off, buf, counts, i, x);
    IterationAt(f, w, Chunk(off, buf, i), a, b, x);
    InRange(off, n, i);
    assert At(f, x) == 1;
    var g := Bounced(f, off, buf, counts);
    assert At(g, x) == if b < w.skew + w.chunk then 1 else 0;
  }

  lemma InRange(off: nat, n: nat, i: nat)
    requires Done(off, n, i) < n
    ensures off <= Nth(off, n, i).base + Nth(off, n, i).skew
    ensures Nth(off, n, i).base + Nth(off, n, i).skew + Nth(off, n, i).chunk <= off + n
    ensures Nth(off, n, i).base < off ==> Nth(off, n, i).base + Nth(off, n, i).skew == off
    ensures off + n < Nth(off, n, i).base + Nth(off, n, i).span ==>
              Nth(off, n, i).base + Nth(off, n, i).skew + Nth(off, n, i).chunk == off + n
  {
    if i > 0 {
      NextWindow(off, n, i - 1);
    }
  }

  /** A finished uncached write, for every offset and length, is the positional write for all files
      and bytes if and only if every one of its windows moved enough. */
  lemma WriteExactly(off: nat, n: nat, counts: seq<Count>)
    requires Counted(off, n, counts) && Done(off, n, |counts|) == n
    ensures WritesExactly(off, n, counts) <==> AllEnough(off, n, counts)
  {
    hide Done, Enough, Wrote;
    if AllEnough(off, n, counts) {
      forall f: seq<byte>, buf: seq<byte> | |buf| == n ensures Wrote(f, Bounced(f, off, buf, counts), off, buf) {
        EnoughBounced(f, off, buf, counts);
        assert buf[..n] == buf;
      }
    } else {
      var i :| 0 <= i < |counts| && !Enough(Nth(off, n, i), counts[i]);
      Roomy(off, n);
      ShortLoses(Ones(off + n + ALIGN), off, Twos(n), counts, i);
    }
  }

  /** A script under which the calls of a bounce write move exactly these counts. */
  function Play(off: nat, n: nat, counts: seq<Count>): seq<Outcome>
    decreases |counts|
  {
    if counts == [] then []
    else
      var i := |counts| - 1;
      Play(off, n, counts[..i])
      + if Done(off, n, i) < n && ReadFirst(Nth(off, n, i)) then [Part(counts[i].read), Part(counts[i].written)]
        else [Part(counts[i].written)]
  }

  lemma {:induction false} PlayMade(off: nat, n: nat, counts: seq<Count>)
    requires Counted(off, n, counts)
    ensures |Play(off, n, counts)| == Made(off, n, |counts|)
    ensures forall o | o in Play(off, n, counts) :: o.Part?
    decreases |counts|
  {
    hide Done, Nth;
    if counts != [] {
      PlayMade(off, n, counts[..|counts| - 1]);
    }
  }

  lemma {:induction false} PlayDrawn(off: nat, n: nat, counts: seq<Count>)
    requires Counted(off, n, counts)
    ensures AllDrawn(off, n, counts, Play(off, n, counts))
    decreases |counts|
  {
    hide Done, Nth, Made, Drawn;
    if counts != [] {
      var k := |counts| - 1;
      var init := counts[..k];
      var before, all := Play(off, n, init), Play(off, n, counts);
      PlayDrawn(off, n, init);
      PlayMade(off, n, init);
      LastDrawn(off, n, counts);
      forall i | 0 <= i < k ensures counts[i] == Drawn(all, Made(off, n, i), Nth(off, n, i)) {
        MadeBefore(off, n, i, k);
        assert init[i] == counts[i];
        DrawnPrefix(before, all, Made(off, n, i), Nth(off, n, i));
      }
    }
  }

  lemma LastDrawn(off: nat, n: nat, counts: seq<Count>)
    requires Counted(off, n, counts) && counts != []
    ensures var k := |counts| - 1;
            counts[k] == Drawn(Play(off, n, counts), Made(off, n, k), Nth(off, n, k))
  {
    hide Done, Nth, Made;
    var k := |counts| - 1;
    PlayMade(off, n, counts[..k]);
    var before, all := Play(off, n, counts[..k]), Play(off, n, counts);
    assert all[|before|] == if ReadFirst(Nth(off, n, k)) then Part(counts[k].read) else Part(counts[k].written);
    assert ReadFirst(Nth(off, n, k)) ==> all[|before| + 1] == Part(counts[k].written);
  }

  lemma DrawnPrefix(a: seq<Outcome>, b: seq<Outcome>, j: nat, w: Window)
    requires a <= b && j + Calls(w) <= |a|
    ensures Drawn(a, j, w) == Drawn(b, j, w)
  {
  }

  lemma {:induction false} MadeBefore(off: nat, n: nat, i: nat, k: nat)
    requires i < k && Done(off, n, i) < n
    ensures Made(off, n, i) + Calls(Nth(off, n, i)) <= Made(off, n, k)
    decreases k
  {
    hide Done, Nth;
    if i < k - 1 {
      MadeBefore(off, n, i, k - 1);
    }
  }

  /** Loops that both finish have made the same number of iterations. */
  lemma SameLength(off: nat, n: nat, k: nat, l: nat)
    requires Done(off, n, k) == n && Done(off, n, l) == n
    requires (forall i: nat | i < k :: Done(off, n, i) < n) && (forall i: nat | i < l :: Done(off, n, i) < n)
    ensures k == l
  {
    hide Done;
    assert k < l ==> Done(off, n, k) < n;
    assert l < k ==> Done(off, n, l) < n;
  }

  /** Whatever counts fall short, there is a file and a script on which the uncached loop moves just
      those, loses bytes, and reports success. */
  method LosingWrite(off: nat, n: nat, counts: seq<Count>)
    returns (file: File, buf: seq<byte>, ok: bool, ghost was: seq<byte>)
    requires Counted(off, n, counts) && Done(off, n, |counts|) == n && !AllEnough(off, n, counts)
    ensures fresh(file) && file.direct && ok && buf == Twos(n) && !Wrote(was, file.data, off, buf)
  {
    hide Done, Enough, Wrote, Nth, Bounced, AllDrawn, Play;
    file := new File(Ones(off + n + ALIGN), Play(off, n, counts), true);
    buf := Twos(n);
    was := file.data;
    Roomy(off, n);
    PlayMade(off, n, counts);
    PlayDrawn(off, n, counts);
    ghost var moved;
    ok, moved := file.BounceWrite(off, buf);
    SameLength(off, n, |moved|, |counts|);
    SameDrawn(off, n, moved, counts, Play(off, n, counts));
    ghost var i :| 0 <= i < |counts| && !Enough(Nth(off, n, i), counts[i]);
    ShortLoses(was, off, buf, counts, i);
  }

  lemma SameDrawn(off: nat, n: nat, a: seq<Count>, b: seq<Count>, script: seq<Outcome>)
    requires |a| == |b| && AllDrawn(off, n, a, script) && AllDrawn(off, n, b, script)
    ensures a == b
  {
    hide Done, Nth, Drawn, Made;
  }

  /** One byte at the start of the heap, the last call moving nothing. */
  method LosingByte() returns (file: File, ok: bool, ghost was: seq<byte>)
    ensures fresh(file) && ok && !Wrote(was, file.data, 4096, [2])
  {
    var buf;
    file, buf, ok, was := LosingWrite(4096, 1, [Count(4096, 0)]);
    assert Twos(1) == [2];
  }

  // ------------------------------------------------------------------ reading

  lemma {:induction false} FetchedAt(f: seq<byte>, off: nat, n: nat, counts: seq<nat>, i: nat, j: nat)
    requires Fetches(off, n, counts) && i < |counts| && j < Nth(off, n, i).chunk
    ensures Done(off, n, i) + j < |Fetched(f, off, n, counts)|
    ensures Fetched(f, off, n, counts)[Done(off, n, i) + j] == Delivered(f, Nth(off, n, i), counts[i])[j]
    decreases |counts|
  {
    hide Done, Nth, Delivered;
    var k := |counts| - 1;
    if i < k {
      FetchedAt(f, off, n, counts[..k], i, j);
    }
  }

  ghost predicate ReadsExactly(off: nat, n: nat, counts: seq<nat>)
    requires Fetches(off, n, counts)
  {
    forall f: seq<byte> | Inside(off, n, |f|) :: Fetched(f, off, n, counts) == Slice(f, off, n)
  }

  /** A finished uncached read delivers the range, for all files, if and only if the read of every
      window reached the end of its chunk; short of that it delivers zeros and reports success. */
  lemma ReadExactly(off: nat, n: nat, counts: seq<nat>)
    requires Fetches(off, n, counts) && Done(off, n, |counts|) == n
    ensures ReadsExactly(off, n, counts) <==> AllReach(off, n, counts)
  {
    hide Done, Nth, Delivered, Fetched, Slice;
    if AllReach(off, n, counts) {
      forall f: seq<byte> ensures Fetched(f, off, n, counts) == Slice(f, off, n) {
        ReachFetched(f, off, n, counts);
      }
    } else {
      var i :| 0 <= i < |counts| && counts[i] < Nth(off, n, i).skew + Nth(off, n, i).chunk;
      Roomy(off, n);
      ShortMisreads(Ones(off + n + ALIGN), off, n, counts, i);
    }
  }

  lemma ShortMisreads(f: seq<byte>, off: nat, n: nat, counts: seq<nat>, i: nat)
    requires Fetches(off, n, counts) && Done(off, n, |counts|) == n && i < |counts|
    requires Done(off, n, i) < n && counts[i] <= Nth(off, n, i).span
    requires counts[i] < Nth(off, n, i).skew + Nth(off, n, i).chunk
    requires Inside(off, n, |f|) && f == Ones(|f|)
    ensures Fetched(f, off, n, counts) != Slice(f, off, n)
  {
    hide Done, Nth, Delivered, Fetched, Slice, Inside, Fetches, Ones;
    NthAt(off, n, i, |f|);
    var w := Nth(off, n, i);
    var j: nat := if counts[i] <= w.skew then 0 else counts[i] - w.skew;
    FetchedAt(f, off, n, counts, i, j);
    InRange(off, n, i);
    var d: nat := Done(off, n, i) + j;
    assert Fetched(f, off, n, counts)[d] == 0;
    assert Slice(f, off, n)[d] == 1;
  }

  /** Likewise for reading: the caller gets zeros for bytes that are there, and success. */
  method LosingRead(off: nat, n: nat, counts: seq<nat>) returns (file: File, got: seq<byte>, ok: bool)
    requires Fetches(off, n, counts) && Done(off, n, |counts|) == n && !AllReach(off, n, counts)
    ensures fresh(file) && file.direct && ok && |got| == n && got != Slice(file.data, off, n)
  {
    hide Done, Nth, Fetched, Slice, Delivered;
    var script := seq(|counts|, i requires 0 <= i < |counts| => Part(counts[i]));
    file := new File(Ones(off + n + ALIGN), script, true);
    Roomy(off, n);
    ghost var moved;
    ok, got, moved := file.BounceRead(off, n);
    SameLength(off, n, |moved|, |counts|);
    assert moved == counts;
    ghost var i :| 0 <= i < |counts| && counts[i] < Nth(off, n, i).skew + Nth(off, n, i).chunk;
    ShortMisreads(file.data, off, n, counts, i);
  }
}
