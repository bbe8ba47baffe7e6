/** The store file and the transfer loops over it (src/store.c:25-153).

    A file is a sequence of bytes that reads as zero past its end. System calls follow a
    `script` of outcomes, one per call, so that "for every script" means "whatever the
    operating system does": complete and short transfers, interruptions and errors. */
module Disk {

  type byte = bv8

  const ALIGN: nat := 4096
  const BOUNCE: nat := 4194304
  const ZERO_CHUNK: nat := 1048576

  // ---------------------------------------------------------------- contents

  /** The byte at offset `i` of the zero-extended file. */
  function At(f: seq<byte>, i: nat): byte {
    if i < |f| then f[i] else 0
  }

  function Slice(f: seq<byte>, off: nat, n: nat): (s: seq<byte>)
    ensures |s| == n
    ensures forall i: nat | i < n :: s[i] == At(f, off + i)
  {
    seq(n, i requires 0 <= i => At(f, off + i))
  }

  function Zeros(n: nat): (z: seq<byte>)
    ensures |z| == n
    ensures forall i | 0 <= i < n :: z[i] == 0
  {
    seq(n, i => 0)
  }

  function Max(a: nat, b: nat): nat { if a < b then b else a }

  function Min(a: nat, b: nat): nat { if a < b then a else b }

  /** A positional write: past the end it zero-fills the gap. */
  function WriteAt(f: seq<byte>, off: nat, buf: seq<byte>): (g: seq<byte>)
    ensures |g| == if buf == [] then |f| else Max(|f|, off + |buf|)
    ensures Wrote(f, g, off, buf)
  {
    if buf == [] then f
    else if |f| <= off then f + Zeros(off - |f|) + buf
    else f[..off] + buf + f[Min(off + |buf|, |f|)..]
  }

  /** `g` is `f` with exactly the range at `off` replaced by `buf`, up to zero extension. */
  ghost predicate Wrote(f: seq<byte>, g: seq<byte>, off: nat, buf: seq<byte>) {
    && |f| <= |g|
    && (buf != [] ==> off + |buf| <= |g|)
    && forall i: nat :: At(g, i) == if off <= i < off + |buf| then buf[i - off] else At(f, i)
  }

  /** `g` is `f` with nothing changed outside the `n` bytes at `off`, up to zero extension. */
  ghost predicate Torn(f: seq<byte>, g: seq<byte>, off: nat, n: nat) {
    && |f| <= |g|
    && forall i: nat | !(off <= i < off + n) :: At(g, i) == At(f, i)
  }

  // ------------------------------------------------------------ system calls

  /** What the operating system does with one call. */
  datatype Outcome = Full | Part(k: nat) | Intr | Err

  /** The next call will not fail. */
  predicate Granted(script: seq<Outcome>) {
    script == [] || script[0].Full? || script[0].Part?
  }

  /** What is left of a script after `j` calls. */
  function Spent(script: seq<Outcome>, j: nat): seq<Outcome> {
    if j <= |script| then script[j..] else []
  }

  /** How many of `most` bytes call `j` moves, if it moves any. */
  function Share(script: seq<Outcome>, j: nat, most: nat): (k: nat)
    ensures k <= most
  {
    if j < |script| && script[j].Part? then Min(script[j].k, most) else most
  }

  datatype Transfer = Moved(n: nat) | Interrupted | Failed

  /** The aligned window one bounce iteration works on (src/store.c:60-68). */
  datatype Window = Window(base: nat, skew: nat, chunk: nat, span: nat)

  function WindowAt(abs: nat, left: nat): (w: Window)
    requires left > 0
    ensures w.base + w.skew == abs
    ensures 0 < w.chunk <= left
    ensures w.skew + w.chunk <= w.span <= BOUNCE
    ensures w.base % ALIGN == 0 && w.span % ALIGN == 0
  {
    var base := abs / ALIGN * ALIGN;
    var skew := abs - base;
    var chunk := Min(left, BOUNCE - skew);
    Window(base, skew, chunk, (skew + chunk + ALIGN - 1) / ALIGN * ALIGN)
  }

  /** The window covers more than its bytes, so that it has to be read first (src/store.c:71). */
  predicate ReadFirst(w: Window) { w.skew != 0 || w.span != w.skew + w.chunk }

  /** System calls of one write iteration. */
  function Calls(w: Window): nat { if ReadFirst(w) then 2 else 1 }

  /** What one bounce iteration has in its buffer after reading `a` bytes of the window: the rest
      is cleared (src/store.c:72-74, 79-80). */
  function Filled(f: seq<byte>, w: Window, a: nat): (bb: seq<byte>)
    requires a <= w.span
    ensures |bb| == w.span
    ensures forall i: nat | i < w.span :: bb[i] == if i < a then At(f, w.base + i) else 0
  {
    Slice(f, w.base, a) + Zeros(w.span - a)
  }

  /** The part of it that the caller of a read gets. */
  function Delivered(f: seq<byte>, w: Window, a: nat): (c: seq<byte>)
    requires a <= w.span && w.skew + w.chunk <= w.span
    ensures |c| == w.chunk
    ensures forall i: nat | i < w.chunk :: c[i] == if w.skew + i < a then At(f, w.base + w.skew + i) else 0
  {
    Filled(f, w, a)[w.skew..w.skew + w.chunk]
  }

  function Patched(bb: seq<byte>, skew: nat, piece: seq<byte>): (cc: seq<byte>)
    requires skew + |piece| <= |bb|
    ensures |cc| == |bb|
    ensures forall i: nat | i < |bb| :: cc[i] == if skew <= i < skew + |piece| then piece[i - skew] else bb[i]
  {
    bb[..skew] + piece + bb[skew + |piece|..]
  }

  /** The file after one read-modify-write iteration whose read moved `a` bytes and whose write
      moved `b` (src/store.c:70-77). */
  function Iteration(f: seq<byte>, w: Window, piece: seq<byte>, a: nat, b: nat): seq<byte>
    requires w.skew + |piece| <= w.span && a <= w.span && b <= w.span
  {
    WriteAt(f, w.base, Patched(Filled(f, w, a), w.skew, piece)[..b])
  }

  /** How many of `n` bytes at `off` are behind the first `i` windows: the loop counts each window's
      whole chunk, however few bytes moved (src/store.c:84). */
  function Done(off: nat, n: nat, i: nat): (d: nat)
    ensures d <= n
  {
    if i == 0 then 0
    else
      var d := Done(off, n, i - 1);
      if d < n then d + WindowAt(off + d, n - d).chunk else n
  }

  /** The window of iteration `i`. */
  function Nth(off: nat, n: nat, i: nat): (w: Window)
    requires Done(off, n, i) < n
    ensures 0 < w.chunk && w.skew + w.chunk <= w.span && w.base + w.skew == off + Done(off, n, i)
    ensures Done(off, n, i + 1) == Done(off, n, i) + w.chunk
  {
    WindowAt(off + Done(off, n, i), n - Done(off, n, i))
  }

  function Chunk(off: nat, buf: seq<byte>, i: nat): (c: seq<byte>)
    requires Done(off, |buf|, i) < |buf|
    ensures |c| == Nth(off, |buf|, i).chunk
  {
    buf[Done(off, |buf|, i)..Done(off, |buf|, i + 1)]
  }

  /** Bytes moved by the read and by the write of one iteration. A read that stops at the end of the
      file has seen the whole window. */
  datatype Count = Count(read: nat, written: nat)

  ghost predicate Counted(off: nat, n: nat, counts: seq<Count>) {
    forall i | 0 <= i < |counts| :: Done(off, n, i) < n && CountOf(Nth(off, n, i), counts[i])
  }

  ghost predicate CountOf(w: Window, c: Count) {
    c.read <= w.span && c.written <= w.span && (!ReadFirst(w) ==> c.read == w.span)
  }

  /** Calls made by the first `i` write iterations. */
  function Made(off: nat, n: nat, i: nat): nat {
    if i == 0 then 0
    else Made(off, n, i - 1) + if Done(off, n, i - 1) < n then Calls(Nth(off, n, i - 1)) else 0
  }

  /** The counts that calls from `j` on give an iteration that stays inside the file. */
  function Drawn(script: seq<Outcome>, j: nat, w: Window): Count {
    if ReadFirst(w) then Count(Share(script, j, w.span), Share(script, j + 1, w.span))
    else Count(w.span, Share(script, j, w.span))
  }

  ghost predicate AllDrawn(off: nat, n: nat, counts: seq<Count>, script: seq<Outcome>) {
    forall i | 0 <= i < |counts| :: Done(off, n, i) < n && counts[i] == Drawn(script, Made(off, n, i), Nth(off, n, i))
  }

  /** Every window lies inside a file of `size` bytes. */
  ghost predicate Inside(off: nat, n: nat, size: nat) {
    forall i: nat | Done(off, n, i) < n :: Nth(off, n, i).base + Nth(off, n, i).span <= size
  }

  /** The file after as many iterations as there are counts. */
  ghost function Bounced(f: seq<byte>, off: nat, buf: seq<byte>, counts: seq<Count>): seq<byte>
    requires Counted(off, |buf|, counts)
    decreases |counts|
  {
    if counts == [] then f
    else
      var i := |counts| - 1;
      Iteration(Bounced(f, off, buf, counts[..i]), Nth(off, |buf|, i), Chunk(off, buf, i), counts[i].read, counts[i].written)
  }

  ghost predicate Fetches(off: nat, n: nat, counts: seq<nat>) {
    forall i | 0 <= i < |counts| :: Done(off, n, i) < n && counts[i] <= Nth(off, n, i).span
  }

  ghost predicate AllFetched(off: nat, n: nat, counts: seq<nat>, script: seq<Outcome>) {
    forall i | 0 <= i < |counts| :: Done(off, n, i) < n && counts[i] == Share(script, i, Nth(off, n, i).span)
  }

  /** The read of every window reached the end of what the caller asked of it. */
  ghost predicate AllReach(off: nat, n: nat, counts: seq<nat>) {
    forall i | 0 <= i < |counts| ::
      Done(off, n, i) < n && Nth(off, n, i).skew + Nth(off, n, i).chunk <= counts[i]
  }

  /** What the reading loop has delivered after as many iterations as there are counts. */
  ghost function Fetched(f: seq<byte>, off: nat, n: nat, counts: seq<nat>): (got: seq<byte>)
    requires Fetches(off, n, counts)
    ensures |got| == Done(off, n, |counts|)
    decreases |counts|
  {
    if counts == [] then []
    else
      var i := |counts| - 1;
      Fetched(f, off, n, counts[..i]) + Delivered(f, Nth(off, n, i), counts[i])
  }

  class File {
    var data: seq<byte>
    var script: seq<Outcome>
    const direct: bool

    constructor (data: seq<byte>, script: seq<Outcome>, direct: bool)
      ensures this.data == data && this.script == script && this.direct == direct
    {
      this.data, this.script, this.direct := data, script, direct;
    }

    /** Uncached transfers are complete or they fail. */
    ghost predicate Sane()
      reads this
    {
      direct ==> forall o | o in script :: !o.Part?
    }

    /** Every call moves something or nothing, and says so: no errors, no interruptions. */
    ghost predicate Moving()
      reads this
    {
      forall o | o in script :: o.Full? || o.Part?
    }

    /** No call fails: short transfers move something, interruptions are retried. */
    ghost predicate Clean()
      reads this
    {
      forall o | o in script :: o.Full? || (!direct && (o.Intr? || (o.Part? && o.k > 0)))
    }

    method Next() returns (o: Outcome)
      modifies this`script
      ensures (old(Sane()) ==> Sane()) && (old(Clean()) ==> Clean())
      ensures |script| <= |old(script)| && (o.Intr? ==> |script| < |old(script)|)
      ensures old(Sane()) && direct ==> !o.Part?
      ensures o == (if old(script) == [] then Full else old(script)[0]) && script == Spent(old(script), 1)
      ensures old(Moving()) ==> Moving() && (o.Full? || o.Part?)
      ensures old(Clean()) ==> o.Full? || (!direct && (o.Intr? || (o.Part? && o.k > 0)))
    {
      if script == [] {
        o := Full;
      } else {
        o := script[0];
        script := script[1..];
      }
    }

    /** ls_os_pwrite. */
    method Pwrite(off: nat, buf: seq<byte>) returns (r: Transfer)
      modifies this
      ensures (old(Sane()) ==> Sane()) && (old(Clean()) ==> Clean())
      ensures r.Moved? ==> r.n <= |buf| && data == WriteAt(old(data), off, buf[..r.n])
      ensures !r.Moved? ==> data == old(data)
      ensures r.Moved? && direct && old(Sane()) ==> r.n == |buf|
      ensures r.Interrupted? ==> |script| < |old(script)|
      ensures script == Spent(old(script), 1)
      ensures old(Moving()) ==> Moving() && r == Moved(Share(old(script), 0, |buf|))
      ensures old(Clean()) ==> !r.Failed? && (direct ==> r.Moved?) && (r.Moved? && buf != [] ==> r.n > 0)
    {
      var o := Next();
      match o {
        case Full => r := Moved(|buf|);
        case Part(k) => r := Moved(Min(k, |buf|));
        case Intr => r := Interrupted;
        case Err => r := Failed;
      }
      if r.Moved? {
        data := WriteAt(data, off, buf[..r.n]);
      }
    }

    /** ls_os_pread: stops at the end of the file. */
    method Pread(off: nat, n: nat) returns (r: Transfer, got: seq<byte>)
      modifies this`script
      ensures (old(Sane()) ==> Sane()) && (old(Clean()) ==> Clean())
      ensures r.Moved? ==> r.n <= n && (r.n > 0 ==> off + r.n <= |data|) && got == Slice(data, off, r.n)
      ensures r.Moved? && direct && old(Sane()) && r.n < n ==> |data| <= off + r.n
      ensures |script| <= |old(script)| && (r.Interrupted? ==> |script| < |old(script)|)
      ensures script == Spent(old(script), 1)
      ensures old(Moving()) ==> Moving() && r.Moved? && (off + n <= |data| ==> r.n == Share(old(script), 0, n))
      ensures old(Clean()) ==> !r.Failed? && (direct ==> r.Moved?)
      ensures old(Clean()) && r.Moved? && n > 0 && off < |data| ==> r.n > 0
    {
      got := [];
      var avail := if off < |data| then Min(n, |data| - off) else 0;
      var o := Next();
      match o {
        case Full => r := Moved(avail);
        case Part(k) => r := Moved(Min(k, avail));
        case Intr => r := Interrupted;
        case Err => r := Failed;
      }
      if r.Moved? {
        got := Slice(data, off, r.n);
      }
    }

    /** ls_os_ftruncate. */
    method Truncate(len: nat) returns (ok: bool)
      modifies this
      ensures (old(Sane()) ==> Sane()) && (old(Clean()) ==> Clean())
      ensures ok == Granted(old(script))
      ensures if ok then |data| == len else data == old(data)
      ensures forall i: nat | i < len :: At(data, i) == At(old(data), i)
    {
      var o := Next();
      ok := o.Full? || o.Part?;
      if ok {
        data := if len <= |data| then data[..len] else data + Zeros(len - |data|);
      }
    }

    // ----------------------------------------------------- the retry loops

    /** Buffered write: short positive transfers and interruptions are retried
        (src/store.c:43-51). */
    method PlainWrite(off: nat, buf: seq<byte>) returns (ok: bool)
      modifies this
      ensures (old(Sane()) ==> Sane()) && (old(Clean()) ==> Clean() && ok)
      ensures ok ==> data == WriteAt(old(data), off, buf)
      ensures !ok ==> exists k: nat | k <= |buf| :: data == WriteAt(old(data), off, buf[..k])
    {
      hide Wrote, WriteAt, Sane, Clean;
      assert WriteAt(data, off, buf[..0]) == data by {
        WriteAtNothing(data, off);
      }
      var done: nat := 0;
      while done < |buf|
        invariant done <= |buf|
        invariant (old(Sane()) ==> Sane()) && (old(Clean()) ==> Clean())
        invariant data == WriteAt(old(data), off, buf[..done])
        decreases |buf| - done, |script|
      {
        ghost var before := data;
        var r := Pwrite(off + done, buf[done..]);
        match r {
          case Interrupted =>
          case Failed => return false;
          case Moved(n) =>
            if n == 0 {
              assert buf[done..][..0] == [];
              WriteAtNothing(before, off + done);
              return false;
            }
            assert buf[..done] + buf[done..][..n] == buf[..done + n];
            WriteAtSplit(old(data), off, buf[..done], buf[done..][..n]);
            done := done + n;
        }
      }
      assert buf[..done] == buf;
      return true;
    }

    /** Buffered read; meeting the end of the file is an error (src/store.c:43-51). */
    method PlainRead(off: nat, n: nat) returns (ok: bool, got: seq<byte>)
      modifies this`script
      ensures (old(Sane()) ==> Sane()) && (old(Clean()) ==> Clean())
      ensures ok ==> got == Slice(data, off, n) && (n > 0 ==> off + n <= |data|)
      ensures old(Clean()) && off + n <= |data| ==> ok
    {
      got := [];
      while |got| < n
        invariant (old(Sane()) ==> Sane()) && (old(Clean()) ==> Clean())
        invariant |got| <= n && got == Slice(data, off, |got|)
        invariant |got| > 0 ==> off + |got| <= |data|
        decreases n - |got|, |script|
      {
        var r, more := Pread(off + |got|, n - |got|);
        match r {
          case Interrupted =>
          case Failed => return false, got;
          case Moved(k) =>
            if k == 0 {
              return false, got;
            }
            assert got + more == Slice(data, off, |got| + k);
            got := got + more;
        }
      }
      return true, got;
    }

    /** Fills the bounce buffer with a window of the file, zero past what was read
        (src/store.c:72-74, 79-80). A short read goes unnoticed. */
    method LoadWindow(w: Window) returns (r: Transfer, bb: seq<byte>, ghost a: nat)
      requires direct
      modifies this`script
      ensures (old(Sane()) ==> Sane()) && (old(Clean()) ==> Clean() && r.Moved?)
      ensures r.Moved? ==> a <= w.span && bb == Filled(data, w, a)
      ensures r.Moved? && old(Sane()) ==> a == w.span
      ensures |script| <= |old(script)| && (r.Interrupted? ==> |script| < |old(script)|)
      ensures script == Spent(old(script), 1)
      ensures old(Moving()) ==>
                Moving() && r.Moved? && (w.base + w.span <= |data| ==> a == Share(old(script), 0, w.span))
    {
      r, bb := Pread(w.base, w.span);
      a := 0;
      if r.Moved? {
        var k := |bb|;
        bb := bb + Zeros(w.span - k);
        a := if |data| <= w.base + k then w.span else k;
        assert bb == Filled(data, w, a);
      }
    }

    /** One iteration of the bounce read: the caller's part of the window (src/store.c:79-81). */
    method ReadWindow(w: Window) returns (r: Transfer, part: seq<byte>, ghost a: nat)
      requires direct && w.skew + w.chunk <= w.span
      modifies this`script
      ensures (old(Sane()) ==> Sane()) && (old(Clean()) ==> Clean() && r.Moved?)
      ensures r.Moved? ==> a <= w.span && part == Delivered(data, w, a)
      ensures r.Moved? && old(Sane()) ==> a == w.span
      ensures |script| <= |old(script)| && (r.Interrupted? ==> |script| < |old(script)|)
      ensures script == Spent(old(script), 1)
      ensures old(Moving()) ==>
                Moving() && r.Moved? && (w.base + w.span <= |data| ==> a == Share(old(script), 0, w.span))
    {
      hide Filled, Sane, Clean, Moving;
      part := [];
      var bb;
      r, bb, a := LoadWindow(w);
      if r.Moved? {
        part := bb[w.skew..w.skew + w.chunk];
      }
    }

    /** One iteration of the bounce write: read back what the window covers beyond `piece`,
        overlay `piece`, write the window whole (src/store.c:70-77). */
    method WriteWindow(w: Window, piece: seq<byte>) returns (r: Transfer, ghost c: Count)
      requires direct
      requires |piece| == w.chunk > 0 && w.skew + w.chunk <= w.span
      modifies this
      ensures (old(Sane()) ==> Sane()) && (old(Clean()) ==> Clean() && r.Moved?)
      ensures r.Moved? ==> CountOf(w, c) && |old(data)| <= |data|
                           && data == Iteration(old(data), w, piece, c.read, c.written)
      ensures r.Moved? && old(Sane()) ==> c == Count(w.span, w.span)
      ensures !r.Moved? ==> data == old(data)
      ensures r.Interrupted? ==> |script| < |old(script)|
      ensures old(Moving()) ==> Moving() && r.Moved? && script == Spent(old(script), Calls(w))
      ensures old(Moving()) && w.base + w.span <= |old(data)| ==> c == Drawn(old(script), 0, w)
    {
      hide Wrote, WriteAt, Sane, Clean, Moving, At;
      var bb := Zeros(w.span);
      c := Count(w.span, 0);
      if ReadFirst(w) {
        ghost var a;
        r, bb, a := LoadWindow(w);
        if !r.Moved? {
          return Failed, c;
        }
        c := Count(a, 0);
      }
      assert Patched(bb, w.skew, piece) == Patched(Filled(data, w, c.read), w.skew, piece);
      bb := Patched(bb, w.skew, piece);
      r := Pwrite(w.base, bb);
      if r.Moved? {
        c := Count(c.read, r.n);
      }
    }

    /** Uncached write through the aligned bounce buffer (src/store.c:54-88): each window is read
        back, overlaid and written whole, and counts as done whatever moved. */
    method BounceWrite(off: nat, buf: seq<byte>) returns (ok: bool, ghost counts: seq<Count>)
      requires direct
      modifies this
      ensures (old(Sane()) ==> Sane()) && (old(Clean()) ==> Clean() && ok)
      ensures Counted(off, |buf|, counts) && data == Bounced(old(data), off, buf, counts) && |old(data)| <= |data|
      ensures ok ==> Done(off, |buf|, |counts|) == |buf|
      ensures old(Moving()) ==> ok && (Inside(off, |buf|, |old(data)|) ==> AllDrawn(off, |buf|, counts, old(script)))
      ensures old(Sane()) ==> Wrote(old(data), data, off, buf[..Done(off, |buf|, |counts|)])
    {
      hide Wrote, Sane, Clean, Moving, Iteration, Done, WindowAt, Bounced, Counted, Whole, Made, Drawn, AllDrawn,
           Spent, ReadFirst, Nth, Inside;
      var done: nat := 0;
      counts := [];
      BouncedNone(data, off, buf);
      DrawnNone(off, |buf|, script);
      while done < |buf|
        invariant done == Done(off, |buf|, |counts|)
        invariant (old(Sane()) ==> Sane()) && (old(Clean()) ==> Clean())
        invariant Counted(off, |buf|, counts) && data == Bounced(old(data), off, buf, counts)
        invariant old(Sane()) ==> Whole(off, |buf|, counts)
        invariant |old(data)| <= |data|
        invariant old(Moving()) ==> Moving() && script == Spent(old(script), Made(off, |buf|, |counts|))
        invariant old(Moving()) && Inside(off, |buf|, |old(data)|) ==> AllDrawn(off, |buf|, counts, old(script))
        decreases |buf| - done, |script|
      {
        var w := WindowAt(off + done, |buf| - done);
        NthAt(off, |buf|, |counts|, |old(data)|);
        ghost var c;
        var r;
        r, c := WriteWindow(w, buf[done..done + w.chunk]);
        match r {
          case Interrupted =>
          case Failed =>
            if old(Sane()) {
              WholeWrites(old(data), off, buf, counts);
            }
            return false, counts;
          case Moved(_) =>
            BouncedMore(old(data), off, buf, counts, c);
            DrawnMore(off, |buf|, counts, old(script), c);
            counts := counts + [c];
            done := done + w.chunk;
        }
      }
      if old(Sane()) {
        WholeWrites(old(data), off, buf, counts);
      }
      return true, counts;
    }

    /** Uncached read through the bounce buffer: past what was read it delivers zeros. */
    method BounceRead(off: nat, n: nat) returns (ok: bool, got: seq<byte>, ghost counts: seq<nat>)
      requires direct
      modifies this`script
      ensures (old(Sane()) ==> Sane()) && (old(Clean()) ==> Clean() && ok)
      ensures Fetches(off, n, counts) && got == Fetched(data, off, n, counts)
      ensures ok ==> |got| == n
      ensures old(Moving()) ==> ok && (Inside(off, n, |data|) ==> AllFetched(off, n, counts, old(script)))
      ensures old(Sane()) ==> got == Slice(data, off, |got|)
    {
      hide Sane, Clean, Moving, Done, Delivered, WindowAt, Fetched, Fetches, Slice, At, Spent, Share, AllFetched,
           AllReach, Nth, Inside;
      got, counts := [], [];
      var done: nat := 0;
      FetchedNone(data, off, n);
      DrawnNone(off, n, script);
      while done < n
        invariant done == Done(off, n, |counts|)
        invariant (old(Sane()) ==> Sane()) && (old(Clean()) ==> Clean())
        invariant Fetches(off, n, counts) && got == Fetched(data, off, n, counts)
        invariant old(Sane()) ==> AllReach(off, n, counts)
        invariant old(Moving()) ==> Moving() && script == Spent(old(script), |counts|)
        invariant old(Moving()) && Inside(off, n, |data|) ==> AllFetched(off, n, counts, old(script))
        decreases n - done, |script|
      {
        var w := WindowAt(off + done, n - done);
        NthAt(off, n, |counts|, |data|);
        ghost var a;
        var r, part;
        r, part, a := ReadWindow(w);
        match r {
          case Interrupted =>
          case Failed =>
            if old(Sane()) {
              ReachFetched(data, off, n, counts);
            }
            return false, got, counts;
          case Moved(_) =>
            FetchedMore(data, off, n, counts, a);
            DrawnNext(off, n, counts, old(script), a);
            counts := counts + [a];
            got := got + part;
            done := done + w.chunk;
        }
      }
      if old(Sane()) {
        ReachFetched(data, off, n, counts);
      }
      return true, got, counts;
    }

    /** ls_pwrite_all: which loop runs depends on the address of the caller's buffer too,
        which is not part of the model (src/store.c:39-42). */
    method WriteAll(off: nat, buf: seq<byte>) returns (ok: bool)
      modifies this
      ensures (old(Sane()) ==> Sane()) && (old(Clean()) ==> Clean() && ok)
      ensures ok && old(Sane()) ==> Wrote(old(data), data, off, buf)
      ensures ok && !direct ==> data == WriteAt(old(data), off, buf)
      ensures old(Sane()) ==> Torn(old(data), data, off, |buf|)
      ensures |old(data)| <= |data|
    {
      var bufferAligned: bool := *;
      if !direct || (bufferAligned && off % ALIGN == 0 && |buf| % ALIGN == 0) {
        ok := PlainWrite(off, buf);
      } else {
        ghost var counts;
        ok, counts := BounceWrite(off, buf);
        assert ok ==> buf[..|buf|] == buf;
      }
    }

    /** ls_pread_all. */
    method ReadAll(off: nat, n: nat) returns (ok: bool, got: seq<byte>)
      modifies this`script
      ensures (old(Sane()) ==> Sane()) && (old(Clean()) ==> Clean())
      ensures ok && old(Sane()) ==> got == Slice(data, off, n)
      ensures old(Clean()) && off + n <= |data| ==> ok
    {
      var bufferAligned: bool := *;
      if !direct || (bufferAligned && off % ALIGN == 0 && n % ALIGN == 0) {
        ok, got := PlainRead(off, n);
      } else {
        ghost var counts;
        ok, got, counts := BounceRead(off, n);
      }
    }

    /** zero_range (src/store.c:117-153): zeroes what lies inside the file and extends it to the
        end of the range; without the primitive it writes the zeros. */
    method ZeroRange(off: nat, len: nat) returns (ok: bool)
      modifies this
      ensures (old(Sane()) ==> Sane()) && (old(Clean()) ==> Clean() && ok)
      ensures ok && old(Sane()) ==> Wrote(old(data), data, off, Zeros(len))
      ensures old(Sane()) ==> Torn(old(data), data, off, len)
      ensures |old(data)| <= |data|
      ensures ok && old(Sane()) && len > 0 ==> off + len <= |data|
    {
      if len == 0 {
        return true;
      }
      if !direct {
        var sizeCall := Next();
        if sizeCall.Err? {
          return false;
        }
        var end := |data|;
        var inside := if off >= end then 0 else Min(len, end - off);
        var primitive: Outcome := Full;
        if inside > 0 {
          primitive := Next();
          if primitive.Full? {
            data := WriteAt(data, off, Zeros(inside));
          }
        }
        if primitive.Full? {
          assert Wrote(old(data), data, off, Zeros(inside));
          if off + len <= end {
            return true;
          }
          ok := WriteAll(off + len - 1, [0]);
          return;
        }
      }
      ok := WriteZeros(off, len);
    }

    method WriteZeros(off: nat, len: nat) returns (ok: bool)
      modifies this
      ensures (old(Sane()) ==> Sane()) && (old(Clean()) ==> Clean() && ok)
      ensures ok && old(Sane()) ==> Wrote(old(data), data, off, Zeros(len))
      ensures old(Sane()) ==> Torn(old(data), data, off, len)
      ensures |old(data)| <= |data|
      ensures ok && old(Sane()) && len > 0 ==> off + len <= |data|
    {
      var done: nat := 0;
      while done < len
        invariant done <= len && |old(data)| <= |data|
        invariant (old(Sane()) ==> Sane()) && (old(Clean()) ==> Clean())
        invariant old(Sane()) ==> Wrote(old(data), data, off, Zeros(done))
      {
        var k := Min(len - done, ZERO_CHUNK);
        ok := WriteAll(off + done, Zeros(k));
        if !ok {
          return;
        }
        done := done + k;
      }
      return true;
    }
  }

  lemma WriteAtNothing(f: seq<byte>, off: nat)
    ensures WriteAt(f, off, []) == f
  {
  }

  lemma WriteAtSplit(f: seq<byte>, off: nat, a: seq<byte>, b: seq<byte>)
    ensures WriteAt(WriteAt(f, off, a), off + |a|, b) == WriteAt(f, off, a + b)
  {
    hide WriteAt;
    if a == [] {
      WriteAtNothing(f, off);
      assert a + b == b;
    } else if b == [] {
      WriteAtNothing(WriteAt(f, off, a), off + |a|);
      assert a + b == a;
    } else {
      var g := WriteAt(WriteAt(f, off, a), off + |a|, b);
      var h := WriteAt(f, off, a + b);
      assert |g| == |h|;
      forall i: nat | i < |g| ensures g[i] == h[i] {
        assert At(g, i) == At(h, i);
      }
    }
  }

  lemma WroteNothing(f: seq<byte>, off: nat)
    ensures Wrote(f, f, off, [])
  {
  }

  lemma WroteSplit(f: seq<byte>, g: seq<byte>, h: seq<byte>, off: nat, a: seq<byte>, b: seq<byte>)
    requires Wrote(f, g, off, a) && Wrote(g, h, off + |a|, b)
    ensures Wrote(f, h, off, a + b)
  {
  }

  // ------------------------------------------------------------ bounce windows

  lemma BouncedNone(f: seq<byte>, off: nat, buf: seq<byte>)
    ensures Done(off, |buf|, 0) == 0 && Counted(off, |buf|, []) && Whole(off, |buf|, []) && Bounced(f, off, buf, []) == f
  {
  }

  lemma NthAt(off: nat, n: nat, i: nat, size: nat)
    requires Done(off, n, i) < n
    ensures Nth(off, n, i) == WindowAt(off + Done(off, n, i), n - Done(off, n, i))
    ensures Inside(off, n, size) ==> Nth(off, n, i).base + Nth(off, n, i).span <= size
  {
    hide WindowAt, Done, Inside;
    if Inside(off, n, size) {
      InsideAt(off, n, i, size);
    }
  }

  lemma InsideAt(off: nat, n: nat, i: nat, size: nat)
    requires Done(off, n, i) < n && Inside(off, n, size)
    ensures Nth(off, n, i).base + Nth(off, n, i).span <= size
  {
    hide Done, Nth;
  }

  lemma DrawnNone(off: nat, n: nat, script: seq<Outcome>)
    ensures Made(off, n, 0) == 0 && Spent(script, 0) == script
    ensures AllDrawn(off, n, [], script) && AllFetched(off, n, [], script)
  {
  }

  lemma SpentTwice(script: seq<Outcome>, i: nat, j: nat, most: nat)
    ensures Spent(Spent(script, i), j) == Spent(script, i + j)
    ensures Share(Spent(script, i), j, most) == Share(script, i + j, most)
  {
  }

  lemma DrawnMore(off: nat, n: nat, counts: seq<Count>, script: seq<Outcome>, c: Count)
    requires Done(off, n, |counts|) < n
    ensures var j, w := Made(off, n, |counts|), Nth(off, n, |counts|);
            && Spent(Spent(script, j), Calls(w)) == Spent(script, Made(off, n, |counts| + 1))
            && (AllDrawn(off, n, counts, script) && c == Drawn(Spent(script, j), 0, w)
                ==> AllDrawn(off, n, counts + [c], script))
  {
    hide Done, Nth, Spent, Drawn, Calls, AllDrawn;
    var j, w := Made(off, n, |counts|), Nth(off, n, |counts|);
    SpentTwice(script, j, Calls(w), w.span);
    DrawnLater(script, j, w);
    if AllDrawn(off, n, counts, script) && c == Drawn(script, j, w) {
      AllDrawnMore(off, n, counts, script, c);
    }
  }

  lemma DrawnLater(script: seq<Outcome>, j: nat, w: Window)
    ensures Drawn(Spent(script, j), 0, w) == Drawn(script, j, w)
  {
    hide Spent, Share;
    SpentTwice(script, j, 0, w.span);
    SpentTwice(script, j, 1, w.span);
  }

  lemma AllDrawnMore(off: nat, n: nat, counts: seq<Count>, script: seq<Outcome>, c: Count)
    requires Done(off, n, |counts|) < n && AllDrawn(off, n, counts, script)
    requires c == Drawn(script, Made(off, n, |counts|), Nth(off, n, |counts|))
    ensures AllDrawn(off, n, counts + [c], script)
  {
    hide Done, Nth, Drawn, Made;
  }

  lemma DrawnNext(off: nat, n: nat, counts: seq<nat>, script: seq<Outcome>, a: nat)
    requires Done(off, n, |counts|) < n
    ensures var i, w := |counts|, Nth(off, n, |counts|);
            && Spent(Spent(script, i), 1) == Spent(script, i + 1)
            && (AllFetched(off, n, counts, script) && a == Share(Spent(script, i), 0, w.span)
                ==> AllFetched(off, n, counts + [a], script))
  {
    hide Done, Nth, Spent, Share;
    SpentTwice(script, |counts|, 0, Nth(off, n, |counts|).span);
    SpentTwice(script, |counts|, 1, 0);
  }

  lemma BouncedMore(f: seq<byte>, off: nat, buf: seq<byte>, counts: seq<Count>, c: Count)
    requires Counted(off, |buf|, counts) && Done(off, |buf|, |counts|) < |buf|
    requires CountOf(Nth(off, |buf|, |counts|), c)
    ensures var w := Nth(off, |buf|, |counts|);
            && Counted(off, |buf|, counts + [c])
            && Bounced(f, off, buf, counts + [c])
               == Iteration(Bounced(f, off, buf, counts), w, Chunk(off, buf, |counts|), c.read, c.written)
            && (Whole(off, |buf|, counts) && c == Count(w.span, w.span) ==> Whole(off, |buf|, counts + [c]))
  {
    hide Iteration, Done, Nth, Chunk;
    assert (counts + [c])[..|counts|] == counts;
  }

  lemma FetchedNone(f: seq<byte>, off: nat, n: nat)
    ensures Fetches(off, n, []) && AllReach(off, n, []) && Fetched(f, off, n, []) == [] == Slice(f, off, 0)
  {
  }

  lemma FetchedMore(f: seq<byte>, off: nat, n: nat, counts: seq<nat>, a: nat)
    requires Fetches(off, n, counts) && Done(off, n, |counts|) < n && a <= Nth(off, n, |counts|).span
    ensures Fetches(off, n, counts + [a])
    ensures AllReach(off, n, counts) && Nth(off, n, |counts|).skew + Nth(off, n, |counts|).chunk <= a ==>
              AllReach(off, n, counts + [a])
    ensures Fetched(f, off, n, counts + [a]) == Fetched(f, off, n, counts) + Delivered(f, Nth(off, n, |counts|), a)
  {
    hide Delivered, Done, Nth;
    assert (counts + [a])[..|counts|] == counts;
  }

  /** What one iteration leaves at each offset. */
  lemma IterationAt(f: seq<byte>, w: Window, piece: seq<byte>, a: nat, b: nat, x: nat)
    requires w.skew + |piece| <= w.span && a <= w.span && b <= w.span
    ensures At(Iteration(f, w, piece, a, b), x)
         == if !(w.base <= x < w.base + b) then At(f, x)
            else if w.base + w.skew <= x < w.base + w.skew + |piece| then piece[x - w.base - w.skew]
            else if x < w.base + a then At(f, x) else 0
  {
    hide WriteAt, Patched, Filled;
  }

  lemma IterationSize(f: seq<byte>, w: Window, piece: seq<byte>, a: nat, b: nat)
    requires w.skew + |piece| <= b <= w.span && a <= w.span && piece != []
    ensures |f| <= |Iteration(f, w, piece, a, b)|
    ensures w.base + w.skew + |piece| <= |Iteration(f, w, piece, a, b)|
  {
  }

  /** The write reaches the end of the chunk, and everything it covers outside the chunk had been
      read. */
  ghost predicate Enough(w: Window, c: Count) {
    w.skew <= c.read && w.skew + w.chunk <= c.written && (c.written <= c.read || c.written == w.skew + w.chunk)
  }

  lemma EnoughWrites(f: seq<byte>, w: Window, piece: seq<byte>, c: Count)
    requires |piece| == w.chunk > 0 && c.read <= w.span && c.written <= w.span && Enough(w, c)
    ensures w.skew + w.chunk <= w.span
    ensures Wrote(f, Iteration(f, w, piece, c.read, c.written), w.base + w.skew, piece)
  {
    hide Iteration;
    IterationSize(f, w, piece, c.read, c.written);
    forall x: nat
      ensures At(Iteration(f, w, piece, c.read, c.written), x)
           == if w.base + w.skew <= x < w.base + w.skew + |piece| then piece[x - w.base - w.skew] else At(f, x)
    {
      IterationAt(f, w, piece, c.read, c.written, x);
    }
  }

  ghost predicate AllEnough(off: nat, n: nat, counts: seq<Count>) {
    forall i | 0 <= i < |counts| :: Done(off, n, i) < n && Enough(Nth(off, n, i), counts[i])
  }

  /** No transfer was short. */
  ghost predicate Whole(off: nat, n: nat, counts: seq<Count>) {
    forall i | 0 <= i < |counts| ::
      Done(off, n, i) < n && counts[i] == Count(Nth(off, n, i).span, Nth(off, n, i).span)
  }

  lemma ChunkNext(off: nat, buf: seq<byte>, i: nat)
    requires Done(off, |buf|, i) < |buf|
    ensures buf[..Done(off, |buf|, i)] + Chunk(off, buf, i) == buf[..Done(off, |buf|, i + 1)]
  {
    hide Done, Nth;
  }

  /** When every window moves enough, the loop is the plain positional write. */
  lemma {:induction false} EnoughBounced(f: seq<byte>, off: nat, buf: seq<byte>, counts: seq<Count>)
    requires Counted(off, |buf|, counts) && AllEnough(off, |buf|, counts)
    ensures Wrote(f, Bounced(f, off, buf, counts), off, buf[..Done(off, |buf|, |counts|)])
    decreases |counts|
  {
    hide Done, Iteration, Enough, WindowAt, Nth, Wrote, Chunk;
    BouncedNone(f, off, buf);
    WroteNothing(f, off);
    if counts != [] {
      var i := |counts| - 1;
      var g := Bounced(f, off, buf, counts[..i]);
      EnoughBounced(f, off, buf, counts[..i]);
      EnoughWrites(g, Nth(off, |buf|, i), Chunk(off, buf, i), counts[i]);
      ChunkNext(off, buf, i);
      WroteSplit(f, g, Bounced(f, off, buf, counts), off, buf[..Done(off, |buf|, i)], Chunk(off, buf, i));
    }
  }

  lemma {:induction false} ReachFetched(f: seq<byte>, off: nat, n: nat, counts: seq<nat>)
    requires Fetches(off, n, counts) && AllReach(off, n, counts)
    ensures Fetched(f, off, n, counts) == Slice(f, off, Done(off, n, |counts|))
    decreases |counts|
  {
    hide Done, Nth, Delivered, Slice, At;
    FetchedNone(f, off, n);
    if counts != [] {
      var i := |counts| - 1;
      ReachFetched(f, off, n, counts[..i]);
      var more := Delivered(f, Nth(off, n, i), counts[i]);
      var d := Done(off, n, i);
      assert Slice(f, off, d) + more == Slice(f, off, d + |more|);
    } else {
      assert Done(off, n, 0) == 0 by {
        assert |Fetched(f, off, n, [])| == 0;
      }
    }
  }

  lemma WholeWrites(f: seq<byte>, off: nat, buf: seq<byte>, counts: seq<Count>)
    requires Counted(off, |buf|, counts) && Whole(off, |buf|, counts)
    ensures Wrote(f, Bounced(f, off, buf, counts), off, buf[..Done(off, |buf|, |counts|)])
  {
    hide Bounced, Done;
    forall i | 0 <= i < |counts| ensures Done(off, |buf|, i) < |buf| && Enough(Nth(off, |buf|, i), counts[i]) {
    }
    EnoughBounced(f, off, buf, counts);
  }
}
