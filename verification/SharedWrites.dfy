/** Writes by processes that share a store: the transfers an `ls_write` issues over a frozen layout,
    and what any interleaving of them leaves in the records (include/libspill.h:107-140). */
module SharedWrites {
  import opened Wrappers
  import opened Disk
  import opened Extents
  import opened Holes
  import opened Records
  import opened Spec
  import opened Updates
  import opened Shared

  // ------------------------------------------------------ places in an extent

  lemma {:induction false} LeftRun(ext: seq<Extent>, p: nat, j: nat)
    requires p < Total(ext) && j < Left(ext, p)
    ensures p + j < Total(ext) && FileOff(ext, p + j) == FileOff(ext, p) + j && Left(ext, p + j) == Left(ext, p) - j
  {
    if p >= ext[0].len {
      LeftRun(ext[1..], p - ext[0].len, j);
    }
  }

  /** Extents are aligned in the file and so in the record: a block of the record is a block of the
      file, inside one extent. */
  lemma {:induction false} BlockStart(ext: seq<Extent>, end: nat, p: nat)
    requires Within(ext, end) && p < Total(ext)
    ensures var q := p - p % ALIGN;
            && FileOff(ext, q) + p % ALIGN == FileOff(ext, p) && FileOff(ext, q) % ALIGN == 0
            && Left(ext, q) == Left(ext, p) + p % ALIGN && Left(ext, q) % ALIGN == 0
  {
    hide Piece;
    AlignedPiece(ext[0], end, p);
    if p >= ext[0].len {
      var rest := ext[1..];
      assert forall i | 0 <= i < |rest| :: rest[i] == ext[i + 1];
      BlockStart(rest, end, p - ext[0].len);
    }
  }

  lemma AlignedPiece(e: Extent, end: nat, p: nat)
    requires Piece(e, end)
    ensures p < e.len ==> (e.foff + (p - p % ALIGN)) % ALIGN == 0 && (e.len - (p - p % ALIGN)) % ALIGN == 0
    ensures p >= e.len ==> (p - e.len) % ALIGN == p % ALIGN && e.len <= p - p % ALIGN
  {
  }

  // ---------------------------------------------------- the transfers of a write

  function Stroke(direct: bool, pos: nat, most: nat): (w: Window)
    requires most > 0
    ensures 0 < w.chunk <= most && w.base + w.skew == pos && w.skew + w.chunk <= w.span
  {
    if direct then WindowAt(pos, most) else Window(pos, 0, most, most)
  }

  /** ls_scatter, one transfer for each extent; uncached, one for each window of it
      (src/store.c:54-85, 358-374). */
  function Transfers(ext: seq<Extent>, direct: bool, key: Key, lo: nat, bytes: seq<byte>): seq<Patch>
    decreases |bytes|
  {
    if bytes == [] || lo >= Total(ext) then []
    else
      var w := Stroke(direct, FileOff(ext, lo), Min(|bytes|, Left(ext, lo)));
      [Patch(key, lo, bytes[..w.chunk], w.base, w.skew, w.span)]
      + Transfers(ext, direct, key, lo + w.chunk, bytes[w.chunk..])
  }

  /** Buffered, they are the positional writes that ls_scatter issues. */
  lemma {:induction false} TransfersAreStrips(ext: seq<Extent>, key: Key, lo: nat, bytes: seq<byte>)
    ensures var ts, ss := Transfers(ext, false, key, lo, bytes), Strips(ext, lo, bytes);
            && |ts| == |ss|
            && forall i | 0 <= i < |ts| :: ts[i] == Patch(key, ss[i].lo, ss[i].bytes, ss[i].pos, 0, |ss[i].bytes|)
    decreases |bytes|
  {
    hide FileOff, Left;
    if bytes != [] && lo < Total(ext) {
      var k := Min(|bytes|, Left(ext, lo));
      TransfersAreStrips(ext, key, lo + k, bytes[k..]);
    }
  }

  /** Transfer `i` of `ts` is window `i` of a bounce write of the first `n` of `bytes` at `pos`. */
  ghost predicate IsWindow(ts: seq<Patch>, key: Key, lo: nat, bytes: seq<byte>, pos: nat, n: nat, i: nat) {
    && n <= |bytes| && Done(pos, n, i) < n && i < |ts|
    && var w, d := Nth(pos, n, i), Done(pos, n, i);
       ts[i] == Patch(key, lo + d, bytes[d..d + w.chunk], w.base, w.skew, w.span)
  }

  /** Uncached, each of those goes through the windows of the bounce loop in turn. */
  lemma {:induction false} TransfersAreWindows(ext: seq<Extent>, key: Key, lo: nat, bytes: seq<byte>, i: nat)
    requires bytes != [] && lo + |bytes| <= Total(ext)
    requires Done(FileOff(ext, lo), Min(|bytes|, Left(ext, lo)), i) < Min(|bytes|, Left(ext, lo))
    ensures IsWindow(Transfers(ext, true, key, lo, bytes), key, lo, bytes, FileOff(ext, lo), Min(|bytes|, Left(ext, lo)), i)
    decreases i
  {
    hide FileOff, Left, WindowAt, Total, Done, Nth, IsWindow;
    var n, pos := Min(|bytes|, Left(ext, lo)), FileOff(ext, lo);
    var w := WindowAt(pos, n);
    var ts, rest := Transfers(ext, true, key, lo, bytes), Transfers(ext, true, key, lo + w.chunk, bytes[w.chunk..]);
    NthFirst(pos, n);
    if i == 0 {
      WindowFirst(ts, key, lo, bytes, pos, n);
    } else {
      FirstWindow(pos, n, i - 1);
      LeftRun(ext, lo, w.chunk);
      TransfersAreWindows(ext, key, lo + w.chunk, bytes[w.chunk..], i - 1);
      WindowNext(ts, rest, key, lo, bytes, pos, n, i - 1);
    }
  }

  /** Window `k - 1` is the last of `n` bytes at `pos`. */
  ghost predicate Finishes(pos: nat, n: nat, k: nat) {
    k > 0 && Done(pos, n, k - 1) < n && Done(pos, n, k) == n
  }

  /** What follows the windows of the first extent is the rest of the write at the next. */
  lemma {:induction false} TransfersThenNext(ext: seq<Extent>, key: Key, lo: nat, bytes: seq<byte>) returns (k: nat)
    requires bytes != [] && lo + |bytes| <= Total(ext)
    ensures var n, ts := Min(|bytes|, Left(ext, lo)), Transfers(ext, true, key, lo, bytes);
            && Finishes(FileOff(ext, lo), n, k)
            && k <= |ts| && ts[k..] == Transfers(ext, true, key, lo + n, bytes[n..])
    decreases |bytes|
  {
    hide FileOff, Left, WindowAt, Total, Finishes, Transfers;
    var n, pos := Min(|bytes|, Left(ext, lo)), FileOff(ext, lo);
    var c := WindowAt(pos, n).chunk;
    HeadWindow(ext, key, lo, bytes);
    if c == n {
      k := 1;
      OneWindow(pos, n);
    } else {
      var l := TransfersThenNext(ext, key, lo + c, bytes[c..]);
      k := l + 1;
      MoreWindows(pos, n, l);
      SkipTwice(Transfers(ext, true, key, lo, bytes), l);
      SkipBytes(bytes, c, n);
    }
  }

  lemma HeadWindow(ext: seq<Extent>, key: Key, lo: nat, bytes: seq<byte>)
    requires bytes != [] && lo + |bytes| <= Total(ext)
    ensures var n, ts := Min(|bytes|, Left(ext, lo)), Transfers(ext, true, key, lo, bytes);
            var c := WindowAt(FileOff(ext, lo), n).chunk;
            && ts != [] && ts[1..] == Transfers(ext, true, key, lo + c, bytes[c..])
            && (c < n ==> FileOff(ext, lo + c) == FileOff(ext, lo) + c && Min(|bytes[c..]|, Left(ext, lo + c)) == n - c)
  {
    hide FileOff, Left, WindowAt, Total;
    var n := Min(|bytes|, Left(ext, lo));
    var c := WindowAt(FileOff(ext, lo), n).chunk;
    if c < n {
      LeftRun(ext, lo, c);
    }
  }

  lemma SkipTwice(ts: seq<Patch>, l: nat)
    requires l + 1 <= |ts|
    ensures ts[l + 1..] == ts[1..][l..]
  {
  }

  lemma SkipBytes(bytes: seq<byte>, c: nat, n: nat)
    requires c <= n <= |bytes|
    ensures bytes[c..][n - c..] == bytes[n..]
  {
  }

  lemma OneWindow(pos: nat, n: nat)
    requires n > 0 && WindowAt(pos, n).chunk == n
    ensures Finishes(pos, n, 1)
  {
    hide WindowAt;
    assert Done(pos, n, 0) == 0;
  }

  lemma MoreWindows(pos: nat, n: nat, l: nat)
    requires n > 0 && WindowAt(pos, n).chunk < n
    requires var c := WindowAt(pos, n).chunk; Finishes(pos + c, n - c, l)
    ensures Finishes(pos, n, l + 1)
  {
    hide WindowAt, Done;
    DoneShift(pos, n, l);
    DoneShift(pos, n, l - 1);
  }

  lemma {:induction false} DoneShift(pos: nat, n: nat, i: nat)
    requires n > 0 && WindowAt(pos, n).chunk < n
    ensures var c := WindowAt(pos, n).chunk;
            Done(pos, n, i + 1) == c + Done(pos + c, n - c, i)
    decreases i
  {
    hide WindowAt;
    if i > 0 {
      DoneShift(pos, n, i - 1);
    } else {
      assert Done(pos, n, 0) == 0;
    }
  }

  lemma WindowFirst(ts: seq<Patch>, key: Key, lo: nat, bytes: seq<byte>, pos: nat, n: nat)
    requires 0 < n <= |bytes| && ts != []
    requires var w := WindowAt(pos, n); ts[0] == Patch(key, lo, bytes[..w.chunk], w.base, w.skew, w.span)
    ensures IsWindow(ts, key, lo, bytes, pos, n, 0)
  {
    hide WindowAt, Done, Nth;
    NthFirst(pos, n);
  }

  lemma WindowNext(ts: seq<Patch>, rest: seq<Patch>, key: Key, lo: nat, bytes: seq<byte>, pos: nat, n: nat, i: nat)
    requires n <= |bytes| && ts != [] && ts[1..] == rest && Done(pos, n, i + 1) < n
    requires var c := WindowAt(pos, n).chunk;
             c < n && IsWindow(rest, key, lo + c, bytes[c..], pos + c, n - c, i)
    ensures IsWindow(ts, key, lo, bytes, pos, n, i + 1)
  {
    hide WindowAt, Done, Nth;
    var c := WindowAt(pos, n).chunk;
    FirstWindow(pos, n, i);
    NthNext(pos, n, i, c);
    var w, d := Nth(pos + c, n - c, i), Done(pos + c, n - c, i);
    assert bytes[c..][d..d + w.chunk] == bytes[c + d..c + d + w.chunk];
    assert ts[i + 1] == rest[i];
  }

  /** After the first window the loop goes on as if started there. */
  lemma {:induction false} FirstWindow(pos: nat, n: nat, i: nat)
    requires Done(pos, n, i + 1) < n
    ensures var c := WindowAt(pos, n).chunk;
            c < n && Done(pos, n, i + 1) == c + Done(pos + c, n - c, i)
    decreases i
  {
    hide WindowAt;
    if i > 0 {
      FirstWindow(pos, n, i - 1);
    } else {
      assert Done(pos, n, 0) == 0;
    }
  }

  lemma NthFirst(pos: nat, n: nat)
    requires n > 0
    ensures Done(pos, n, 0) == 0 && Nth(pos, n, 0) == WindowAt(pos, n)
  {
    hide WindowAt;
  }

  lemma NthNext(pos: nat, n: nat, i: nat, c: nat)
    requires c < n && Done(pos + c, n - c, i) < n - c && Done(pos, n, i + 1) == c + Done(pos + c, n - c, i)
    ensures Nth(pos, n, i + 1) == Nth(pos + c, n - c, i)
  {
    hide WindowAt, Done;
  }

  predicate Writing(op: Op) { op.Write? || op.Writev? }

  function SegsOf(op: Op): seq<Seg>
    requires Writing(op)
  {
    if op.Write? then [Seg(op.off, op.buf)] else op.segs
  }

  /** The write is inside a record of the frozen layout. */
  predicate Accepted(recs: map<Key, Rec>, op: Op)
    requires Writing(op)
  {
    && KeyOk(op.key) && op.key in recs
    && High(SegsOf(op)) < LIMIT && High(SegsOf(op)) <= recs[op.key].size
  }

  /** One scatter for each segment (src/store.c:666-670). */
  function PlanSegs(ext: seq<Extent>, direct: bool, key: Key, segs: seq<Seg>): seq<Patch>
    decreases |segs|
  {
    if segs == [] then []
    else
      var last := segs[|segs| - 1];
      PlanSegs(ext, direct, key, segs[..|segs| - 1]) + Transfers(ext, direct, key, last.off, last.buf)
  }

  /** What a process does to the file for one write or writev; refused ones do nothing. */
  function Plan(recs: map<Key, Rec>, direct: bool, op: Op): seq<Patch>
    requires Writing(op)
  {
    if Accepted(recs, op) then PlanSegs(recs[op.key].ext, direct, op.key, SegsOf(op)) else []
  }

  ghost predicate AllWrites(ops: seq<Op>) {
    forall op | op in ops :: Writing(op)
  }

  ghost function PlanAll(recs: map<Key, Rec>, direct: bool, ops: seq<Op>): seq<Patch>
    requires AllWrites(ops)
    decreases |ops|
  {
    if ops == [] then []
    else
      assert ops[|ops| - 1] in ops;
      PlanAll(recs, direct, ops[..|ops| - 1]) + Plan(recs, direct, ops[|ops| - 1])
  }

  /** A layout as every process loads it: one owner for each extent, and nothing resident. */
  ghost predicate Layout(recs: map<Key, Rec>, owner: map<Extent, (Key, nat)>, fl: seq<Extent>, fileEnd: nat) {
    && Owned(recs, owner) && Separate(fl, owner.Keys, fileEnd)
    && forall k | k in recs :: recs[k].mem.None? && recs[k].size <= Total(recs[k].ext)
  }

  /** A valid store without a memory tier is such a layout. */
  lemma StoreIsLayout(recs: map<Key, Rec>, owner: map<Extent, (Key, nat)>, fl: seq<Extent>, fileEnd: nat, f: seq<byte>)
    requires Owned(recs, owner) && RecsOk(recs, f) && Partition(fl, owner.Keys, fileEnd)
    requires forall k | k in recs :: recs[k].mem.None?
    ensures Layout(recs, owner, fl, fileEnd)
  {
    hide Partition, Owned;
    PartitionSeparate(fl, owner.Keys, fileEnd);
    assert forall k | k in recs :: RecOk(recs[k], f);
  }

  function HullLo(w: Patch): int { w.lo - w.skew }

  /** The window of `w` is a run of the record, and its bytes lie in it where the layout puts
      them. */
  ghost predicate Located(recs: map<Key, Rec>, w: Patch) {
    && KeyOk(w.key) && w.key in recs && recs[w.key].mem.None? && Contained(w) && w.bytes != []
    && w.lo + |w.bytes| <= recs[w.key].size <= Total(recs[w.key].ext) && w.lo + |w.bytes| < LIMIT
    && 0 <= HullLo(w) && HullLo(w) + w.span <= Total(recs[w.key].ext)
    && forall q: nat | HullLo(w) <= q < HullLo(w) + w.span :: FileOff(recs[w.key].ext, q) == w.base + (q - HullLo(w))
  }

  /** `q` is in a block that `n` bytes at `lo` touch. */
  predicate InBlocks(lo: nat, n: nat, q: nat) {
    n > 0 && lo / ALIGN <= q / ALIGN <= (lo + n - 1) / ALIGN
  }

  /** A part of the write of `bytes` at `lo`, rewriting no more than the blocks it touches, or than
      its bytes when it is buffered. */
  ghost predicate PartOf(w: Patch, direct: bool, key: Key, lo: nat, n: nat) {
    && w.key == key && lo <= w.lo && w.lo + |w.bytes| <= lo + n
    && (direct ==> forall q: nat | HullLo(w) <= q < HullLo(w) + w.span :: InBlocks(lo, n, q))
    && (!direct ==> w.skew == 0 && w.span == |w.bytes|)
  }

  lemma WindowBlocks(pos: nat, most: nat, lo: nat, q: nat)
    requires most > 0 && pos % ALIGN == lo % ALIGN
    ensures WindowAt(pos, most).skew == lo % ALIGN
    ensures var w := WindowAt(pos, most);
            lo - w.skew <= q < lo - w.skew + w.span <==> InBlocks(lo, w.chunk, q)
  {
  }

  /** An aligned room that holds the bytes holds their window. */
  lemma WindowInside(pos: nat, most: nat, room: nat)
    requires 0 < most && pos % ALIGN + most <= room && room % ALIGN == 0
    ensures WindowAt(pos, most).span <= room
  {
  }

  lemma StrokeLocated(ext: seq<Extent>, end: nat, direct: bool, lo: nat, most: nat)
    requires Within(ext, end) && lo < Total(ext) && 0 < most <= Left(ext, lo)
    ensures var w := Stroke(direct, FileOff(ext, lo), most);
            && w.skew <= lo && lo - w.skew + w.span <= Total(ext)
            && (forall q: nat | lo - w.skew <= q < lo - w.skew + w.span :: FileOff(ext, q) == w.base + (q - (lo - w.skew)))
            && (direct ==> forall q: nat :: lo - w.skew <= q < lo - w.skew + w.span <==> InBlocks(lo, w.chunk, q))
  {
    hide FileOff, Left, Within, Total, Stroke, InBlocks;
    var w := Stroke(direct, FileOff(ext, lo), most);
    var start: nat := StrokeStart(ext, end, direct, lo, most);
    forall q: nat | start <= q < start + w.span ensures FileOff(ext, q) == w.base + (q - start) {
      LeftRun(ext, start, q - start);
    }
    if direct {
      BlockStart(ext, end, lo);
      forall q: nat ensures start <= q < start + w.span <==> InBlocks(lo, w.chunk, q) {
        StrokeBlocks(FileOff(ext, lo), most, lo, q);
      }
    }
  }

  /** Where the window of a transfer starts in the record: inside the same extent, which holds all of
      it. */
  lemma StrokeStart(ext: seq<Extent>, end: nat, direct: bool, lo: nat, most: nat) returns (start: nat)
    requires Within(ext, end) && lo < Total(ext) && 0 < most <= Left(ext, lo)
    ensures var w := Stroke(direct, FileOff(ext, lo), most);
            && start == lo - w.skew && start + w.span <= Total(ext)
            && FileOff(ext, start) == w.base && w.span <= Left(ext, start)
  {
    hide FileOff, Left, Within, Total, WindowAt;
    if direct {
      BlockStart(ext, end, lo);
      start := lo - lo % ALIGN;
      assert FileOff(ext, lo) % ALIGN == lo % ALIGN;
      WindowBlocks(FileOff(ext, lo), most, lo, lo);
      WindowInside(FileOff(ext, lo), most, Left(ext, start));
    } else {
      start := lo;
    }
  }

  lemma StrokeBlocks(pos: nat, most: nat, lo: nat, q: nat)
    requires most > 0 && pos >= lo % ALIGN && (pos - lo % ALIGN) % ALIGN == 0
    ensures var w := Stroke(true, pos, most);
            lo - w.skew <= q < lo - w.skew + w.span <==> InBlocks(lo, w.chunk, q)
  {
    hide WindowAt, InBlocks;
    assert pos % ALIGN == lo % ALIGN;
    WindowBlocks(pos, most, lo, q);
  }

  /** Every transfer of an accepted write is where the layout puts it. */
  lemma {:induction false} TransfersLocated(recs: map<Key, Rec>, end: nat, direct: bool, key: Key, lo: nat, bytes: seq<byte>)
    requires KeyOk(key) && key in recs && recs[key].mem.None? && Within(recs[key].ext, end)
    requires lo + |bytes| <= recs[key].size <= Total(recs[key].ext) && lo + |bytes| < LIMIT
    ensures forall w | w in Transfers(recs[key].ext, direct, key, lo, bytes) ::
              Located(recs, w) && PartOf(w, direct, key, lo, |bytes|)
    decreases |bytes|
  {
    hide FileOff, Left, Within, Total, Stroke, InBlocks;
    if bytes != [] {
      var ext := recs[key].ext;
      var most := Min(|bytes|, Left(ext, lo));
      var w := Stroke(direct, FileOff(ext, lo), most);
      StrokeLocated(ext, end, direct, lo, most);
      var head := Patch(key, lo, bytes[..w.chunk], w.base, w.skew, w.span);
      assert Located(recs, head);
      FirstPart(direct, head, lo, |bytes|, most);
      TransfersLocated(recs, end, direct, key, lo + w.chunk, bytes[w.chunk..]);
      forall v | v in Transfers(ext, direct, key, lo + w.chunk, bytes[w.chunk..])
        ensures PartOf(v, direct, key, lo, |bytes|)
      {
        LaterPart(v, direct, key, lo, |bytes|, w.chunk);
      }
    }
  }

  lemma FirstPart(direct: bool, w: Patch, lo: nat, n: nat, most: nat)
    requires w.lo == lo && 0 < |w.bytes| <= most <= n
    requires Stroke(direct, Pos(w), most) == Window(w.base, w.skew, |w.bytes|, w.span)
    requires direct ==> forall q: nat :: HullLo(w) <= q < HullLo(w) + w.span <==> InBlocks(lo, |w.bytes|, q)
    ensures PartOf(w, direct, w.key, lo, n)
  {
    forall q: nat | InBlocks(lo, |w.bytes|, q) ensures InBlocks(lo, n, q) {
      MoreBlocks(lo, |w.bytes|, lo, n, q);
    }
  }

  lemma MoreBlocks(a: nat, m: nat, b: nat, n: nat, q: nat)
    requires b <= a && a + m <= b + n && InBlocks(a, m, q)
    ensures InBlocks(b, n, q)
  {
  }

  lemma LaterPart(v: Patch, direct: bool, key: Key, lo: nat, n: nat, d: nat)
    requires d <= n && PartOf(v, direct, key, lo + d, n - d)
    ensures PartOf(v, direct, key, lo, n)
  {
    if direct {
      forall q: nat | HullLo(v) <= q < HullLo(v) + v.span ensures InBlocks(lo, n, q) {
        MoreBlocks(lo + d, n - d, lo, n, q);
      }
    }
  }

  // ------------------------------------------------------- file and record bytes

  lemma NeverMeet(a: seq<Extent>, b: seq<Extent>, p: nat, q: nat)
    requires AllApart(a, b) && p < Total(a) && q < Total(b)
    ensures FileOff(a, p) != FileOff(b, q)
  {
    hide FileOff;
    FileOffInside(a, p);
    FileOffInside(b, q);
    var i :| 0 <= i < |a| && Has(a[i], FileOff(a, p));
    var j :| 0 <= j < |b| && Has(b[j], FileOff(b, q));
    assert Apart(a[i], b[j]);
  }

  lemma OneToOne(ext: seq<Extent>, p: nat, q: nat)
    requires Disjoint(ext) && p < Total(ext) && q < Total(ext) && FileOff(ext, p) == FileOff(ext, q)
    ensures p == q
  {
    if p < q {
      FileOffInjective(ext, p, q);
    } else if q < p {
      FileOffInjective(ext, q, p);
    }
  }

  /** A file byte in the window of `w` is one logical byte of its key, and in its data exactly when
      that byte is. */
  lemma HullIsLogical(recs: map<Key, Rec>, owner: map<Extent, (Key, nat)>, fl: seq<Extent>, fileEnd: nat,
                      w: Patch, k: Key, p: nat)
    requires Layout(recs, owner, fl, fileEnd) && Located(recs, w) && k in recs && p < Total(recs[k].ext)
    ensures var x := FileOff(recs[k].ext, p);
            && (Hull(w, x) <==> k == w.key && HullLo(w) <= p < HullLo(w) + w.span)
            && (Data(w, x) <==> k == w.key && w.lo <= p < w.lo + |w.bytes|)
            && (k == w.key && HullLo(w) <= p < HullLo(w) + w.span ==> x == w.base + (p - HullLo(w)))
  {
    hide FileOff, Owned, Separate, Disjoint, AllApart;
    var x := FileOff(recs[k].ext, p);
    OwnedApart(recs, owner, fl, fileEnd, k);
    if Hull(w, x) {
      var q: nat := HullLo(w) + (x - w.base);
      assert FileOff(recs[w.key].ext, q) == x;
      if k == w.key {
        OneToOne(recs[k].ext, p, q);
      } else {
        NeverMeet(recs[k].ext, recs[w.key].ext, p, q);
      }
    }
  }

  // ---------------------------------------------------------- what callers see

  lemma ByteSeen(recs: map<Key, Rec>, owner: map<Extent, (Key, nat)>, fl: seq<Extent>, fileEnd: nat,
                 f: seq<byte>, w: Patch, k: Key, p: nat)
    requires Layout(recs, owner, fl, fileEnd) && Located(recs, w) && k in recs && p < recs[k].size
    ensures ByteOf(recs[k], WriteAt(f, Pos(w), w.bytes), p)
         == if k == w.key && w.lo <= p < w.lo + |w.bytes| then w.bytes[p - w.lo] else ByteOf(recs[k], f, p)
  {
    hide Owned, Separate, FileOff, WriteAt;
    HullIsLogical(recs, owner, fl, fileEnd, w, k, p);
  }

  lemma InsideRec(recs: map<Key, Rec>, w: Patch)
    requires Located(recs, w)
    ensures w.key in recs && w.lo + |w.bytes| <= recs[w.key].size
  {
  }

  lemma OverlaySeen(c: seq<byte>, d: seq<byte>, lo: nat, bytes: seq<byte>)
    requires |c| == |d| && lo + |bytes| <= |c|
    requires forall p: nat | p < |c| :: d[p] == if lo <= p < lo + |bytes| then bytes[p - lo] else c[p]
    ensures d == Overlay(c, lo, bytes)
  {
  }

  lemma RecSeen(recs: map<Key, Rec>, owner: map<Extent, (Key, nat)>, fl: seq<Extent>, fileEnd: nat,
                f: seq<byte>, w: Patch, k: Key)
    requires Layout(recs, owner, fl, fileEnd) && Located(recs, w) && k in recs
    ensures var c := Content(recs[k], f);
            Content(recs[k], WriteAt(f, Pos(w), w.bytes))
            == if k == w.key then Overlay(c, w.lo, w.bytes) else c
  {
    hide Layout, Located, FileOff, Content, WriteAt, Overlay, ByteOf, At;
    var c, d := Content(recs[k], f), Content(recs[k], WriteAt(f, Pos(w), w.bytes));
    InsideRec(recs, w);
    forall p: nat | p < recs[k].size
      ensures d[p] == if k == w.key && w.lo <= p < w.lo + |w.bytes| then w.bytes[p - w.lo] else c[p]
    {
      ByteSeen(recs, owner, fl, fileEnd, f, w, k, p);
    }
    if k == w.key {
      OverlaySeen(c, d, w.lo, w.bytes);
    }
  }

  /** A transfer that lands where the layout says is the abstract store's write of its bytes. */
  lemma WriteSeen(recs: map<Key, Rec>, owner: map<Extent, (Key, nat)>, fl: seq<Extent>, fileEnd: nat,
                  f: seq<byte>, w: Patch)
    requires Layout(recs, owner, fl, fileEnd) && Located(recs, w)
    ensures (View(recs, WriteAt(f, Pos(w), w.bytes)), Just(Ok))
         == Apply(View(recs, f), Write(w.key, w.lo, w.bytes), true)
  {
    hide Owned, Separate, FileOff, Content, WriteAt, Overlay;
    var g := WriteAt(f, Pos(w), w.bytes);
    var m := View(recs, f);
    forall k | k in recs
      ensures Content(recs[k], g) == if k == w.key then Overlay(m[k], w.lo, w.bytes) else m[k]
    {
      RecSeen(recs, owner, fl, fileEnd, f, w, k);
    }
    assert View(recs, g) == m[w.key := Overlay(m[w.key], w.lo, w.bytes)];
  }

  /** Writing a range in two parts is writing it. */
  lemma WriteTwice(m: Keyed, k: Key, lo: nat, bytes: seq<byte>, d: nat)
    requires KeyOk(k) && k in m && lo + |bytes| <= |m[k]| && lo + |bytes| < LIMIT && d <= |bytes|
    ensures var n := Apply(m, Write(k, lo, bytes[..d]), true).0;
            && k in n && |n[k]| == |m[k]|
            && Apply(n, Write(k, lo + d, bytes[d..]), true).0 == Apply(m, Write(k, lo, bytes), true).0
  {
    hide Overlay;
    assert bytes[..d] + bytes[d..] == bytes;
    OverlayTwice(m[k], lo, bytes[..d], bytes[d..]);
  }

  /** The transfers of a write, carried out, are the write. */
  lemma {:induction false} TransfersSeen(recs: map<Key, Rec>, owner: map<Extent, (Key, nat)>, fl: seq<Extent>,
                                         fileEnd: nat, f: seq<byte>, direct: bool, key: Key, lo: nat, bytes: seq<byte>)
    requires Layout(recs, owner, fl, fileEnd) && KeyOk(key) && key in recs
    requires lo + |bytes| <= recs[key].size && lo + |bytes| < LIMIT
    ensures View(recs, Solo(f, Transfers(recs[key].ext, direct, key, lo, bytes)))
         == Apply(View(recs, f), Write(key, lo, bytes), true).0
    decreases |bytes|
  {
    hide Located, View, Apply, Transfers, Overlay, Layout;
    SizeOf(recs, f, key);
    var m := View(recs, f);
    if bytes == [] {
      NoTransfers(recs[key].ext, direct, key, lo);
      WriteNothing(m, key, lo);
    } else {
      var all := Transfers(recs[key].ext, direct, key, lo, bytes);
      var w := HeadLocated(recs, owner, fl, fileEnd, direct, key, lo, bytes);
      var g := WriteAt(f, Pos(w), w.bytes);
      WriteSeen(recs, owner, fl, fileEnd, f, w);
      WriteTwice(m, key, lo, bytes, |w.bytes|);
      TransfersSeen(recs, owner, fl, fileEnd, g, direct, key, lo + |w.bytes|, bytes[|w.bytes|..]);
    }
  }

  lemma NoTransfers(ext: seq<Extent>, direct: bool, key: Key, lo: nat)
    ensures Transfers(ext, direct, key, lo, []) == []
  {
  }

  lemma HeadLocated(recs: map<Key, Rec>, owner: map<Extent, (Key, nat)>, fl: seq<Extent>, fileEnd: nat,
                    direct: bool, key: Key, lo: nat, bytes: seq<byte>) returns (w: Patch)
    requires Layout(recs, owner, fl, fileEnd) && KeyOk(key) && key in recs && bytes != []
    requires lo + |bytes| <= recs[key].size && lo + |bytes| < LIMIT
    ensures Located(recs, w) && w.key == key && w.lo == lo && 0 < |w.bytes| <= |bytes| && w.bytes == bytes[..|w.bytes|]
    ensures Transfers(recs[key].ext, direct, key, lo, bytes)
         == [w] + Transfers(recs[key].ext, direct, key, lo + |w.bytes|, bytes[|w.bytes|..])
  {
    hide Located, Stroke, Left, Owned, Separate, PartOf, FileOff, Total;
    OwnedApart(recs, owner, fl, fileEnd, key);
    TransfersLocated(recs, fileEnd, direct, key, lo, bytes);
    var all := Transfers(recs[key].ext, direct, key, lo, bytes);
    w := all[0];
    assert w in all;
  }

  lemma WriteNothing(m: Keyed, k: Key, lo: nat)
    requires KeyOk(k) && k in m && lo <= |m[k]| && lo < LIMIT
    ensures Apply(m, Write(k, lo, []), true).0 == m
  {
    assert Overlay(m[k], lo, []) == m[k];
  }

  /** The transfers of several segments are their overlays, left to right. */
  lemma {:induction false} SegsSeen(recs: map<Key, Rec>, owner: map<Extent, (Key, nat)>, fl: seq<Extent>, fileEnd: nat,
                                    f: seq<byte>, direct: bool, key: Key, segs: seq<Seg>)
    requires Layout(recs, owner, fl, fileEnd) && KeyOk(key) && key in recs
    requires High(segs) <= recs[key].size && High(segs) < LIMIT
    ensures var m := View(recs, f);
            && key in m && High(segs) <= |m[key]|
            && View(recs, Solo(f, PlanSegs(recs[key].ext, direct, key, segs))) == m[key := Overlays(m[key], segs)]
    decreases |segs|
  {
    hide Layout, View, Transfers, Overlay, Old;
    SizeOf(recs, f, key);
    var m := View(recs, f);
    if segs == [] {
      assert m[key := m[key]] == m;
    } else {
      var init, last := segs[..|segs| - 1], segs[|segs| - 1];
      var before := PlanSegs(recs[key].ext, direct, key, init);
      SegsSeen(recs, owner, fl, fileEnd, f, direct, key, init);
      SoloAppend(f, before, Transfers(recs[key].ext, direct, key, last.off, last.buf));
      TransfersSeen(recs, owner, fl, fileEnd, Solo(f, before), direct, key, last.off, last.buf);
      InRangeWrite(m[key := Overlays(m[key], init)], key, last);
    }
  }

  lemma InRangeWrite(m: Keyed, k: Key, seg: Seg)
    requires KeyOk(k) && k in m && seg.off + |seg.buf| <= |m[k]| && seg.off + |seg.buf| < LIMIT
    ensures Apply(m, Write(k, seg.off, seg.buf), true).0 == m[k := Overlay(m[k], seg.off, seg.buf)]
  {
  }

  lemma PlanSeen(recs: map<Key, Rec>, owner: map<Extent, (Key, nat)>, fl: seq<Extent>, fileEnd: nat,
                 f: seq<byte>, direct: bool, op: Op)
    requires Layout(recs, owner, fl, fileEnd) && Writing(op)
    ensures View(recs, Solo(f, Plan(recs, direct, op))) == Apply(View(recs, f), op, true).0
  {
    hide Layout, View, PlanSegs, Overlays, High, Apply;
    SizeOf(recs, f, op.key);
    if Accepted(recs, op) {
      SegsSeen(recs, owner, fl, fileEnd, f, direct, op.key, SegsOf(op));
    }
    SharedOutcome(View(recs, f), op);
  }

  /** In a shared store a write is its overlays, or nothing. */
  lemma SharedOutcome(m: Keyed, op: Op)
    requires Writing(op)
    ensures var k, h := op.key, High(SegsOf(op));
            Apply(m, op, true).0 == if KeyOk(k) && k in m && h < LIMIT && h <= |m[k]|
                                    then m[k := Overlays(m[k], SegsOf(op))] else m
  {
    hide Apply, Overlay;
    var k, segs := op.key, SegsOf(op);
    var c := Old(m, k);
    if KeyOk(k) {
      WriteOutcome(m, op, true, segs);
      assert High(segs) <= |c| ==> Extend(c, High(segs)) == c;
      if segs == [] && k in m {
        assert m[k := m[k]] == m;
      }
    } else {
      FailOutcome(m, op, true);
    }
  }

  /** A process alone gives what the abstract store gives for its writes. */
  lemma {:induction false} PlanAllSeen(recs: map<Key, Rec>, owner: map<Extent, (Key, nat)>, fl: seq<Extent>,
                                       fileEnd: nat, f: seq<byte>, direct: bool, ops: seq<Op>)
    requires Layout(recs, owner, fl, fileEnd) && AllWrites(ops)
    ensures View(recs, Solo(f, PlanAll(recs, direct, ops))) == Run(View(recs, f), ops, true).0
    decreases |ops|
  {
    hide Layout, Plan, View, Apply;
    if ops != [] {
      var init, last := ops[..|ops| - 1], ops[|ops| - 1];
      PlanAllSeen(recs, owner, fl, fileEnd, f, direct, init);
      SoloAppend(f, PlanAll(recs, direct, init), Plan(recs, direct, last));
      PlanSeen(recs, owner, fl, fileEnd, Solo(f, PlanAll(recs, direct, init)), direct, last);
    }
  }

  ghost predicate AllProcesses(opss: seq<seq<Op>>) {
    forall p | 0 <= p < |opss| :: AllWrites(opss[p])
  }

  ghost function Plans(recs: map<Key, Rec>, direct: bool, opss: seq<seq<Op>>): seq<seq<Patch>>
    requires AllProcesses(opss)
  {
    seq(|opss|, p requires 0 <= p < |opss| => PlanAll(recs, direct, opss[p]))
  }

  lemma {:induction false} PlansSeen(recs: map<Key, Rec>, owner: map<Extent, (Key, nat)>, fl: seq<Extent>,
                                     fileEnd: nat, f: seq<byte>, direct: bool, opss: seq<seq<Op>>)
    requires Layout(recs, owner, fl, fileEnd) && AllProcesses(opss)
    ensures View(recs, InTurn(f, Plans(recs, direct, opss))) == Run(View(recs, f), Flat(opss), true).0
    decreases |opss|
  {
    hide Layout, View, Apply, PlanAll, Solo, AllWrites;
    if opss != [] {
      var plans := Plans(recs, direct, opss);
      assert plans[1..] == Plans(recs, direct, opss[1..]);
      PlanAllSeen(recs, owner, fl, fileEnd, f, direct, opss[0]);
      PlansSeen(recs, owner, fl, fileEnd, Solo(f, plans[0]), direct, opss[1..]);
      RunAppend(View(recs, f), opss[0], Flat(opss[1..]), true);
    }
  }

  // ------------------------------------------------------------- independence

  /** Two ranges of one record have no common byte. */
  predicate RangesApart(a: Seg, b: Seg) {
    || a.buf == [] || b.buf == []
    || a.off + |a.buf| <= b.off || b.off + |b.buf| <= a.off
  }

  /** They touch no common 4096-byte block. */
  predicate BlocksApart(a: Seg, b: Seg) {
    || a.buf == [] || b.buf == []
    || (a.off + |a.buf| - 1) / ALIGN < b.off / ALIGN || (b.off + |b.buf| - 1) / ALIGN < a.off / ALIGN
  }

  predicate SegsApart(direct: bool, a: Seg, b: Seg) {
    if direct then BlocksApart(a, b) else RangesApart(a, b)
  }

  ghost predicate OpsApart(direct: bool, a: Op, b: Op) {
    && Writing(a) && Writing(b)
    && (a.key == b.key ==> forall s, t | s in SegsOf(a) && t in SegsOf(b) :: SegsApart(direct, s, t))
  }

  lemma {:induction false} PlanSegsFrom(ext: seq<Extent>, direct: bool, key: Key, segs: seq<Seg>, w: Patch) returns (i: nat)
    requires w in PlanSegs(ext, direct, key, segs)
    ensures i < |segs| && w in Transfers(ext, direct, key, segs[i].off, segs[i].buf)
    decreases |segs|
  {
    hide Transfers;
    var n := |segs| - 1;
    if w in PlanSegs(ext, direct, key, segs[..n]) {
      i := PlanSegsFrom(ext, direct, key, segs[..n], w);
    } else {
      i := n;
    }
  }

  /** A transfer of a write is part of one of its segments. */
  lemma PlanParts(recs: map<Key, Rec>, owner: map<Extent, (Key, nat)>, fl: seq<Extent>, fileEnd: nat,
                  direct: bool, op: Op, w: Patch) returns (seg: Seg)
    requires Layout(recs, owner, fl, fileEnd) && Writing(op) && w in Plan(recs, direct, op)
    ensures seg in SegsOf(op) && Located(recs, w) && PartOf(w, direct, op.key, seg.off, |seg.buf|)
  {
    hide Located, PartOf, Transfers, PlanSegs, Owned, Separate, High;
    OwnedApart(recs, owner, fl, fileEnd, op.key);
    var i := PlanSegsFrom(recs[op.key].ext, direct, op.key, SegsOf(op), w);
    seg := SegsOf(op)[i];
    TransfersLocated(recs, fileEnd, direct, op.key, seg.off, seg.buf);
  }

  /** A window of one write never reaches into the bytes of another that is apart from it. */
  lemma ApartClear(recs: map<Key, Rec>, owner: map<Extent, (Key, nat)>, fl: seq<Extent>, fileEnd: nat,
                   direct: bool, a: Op, b: Op, v: Patch, w: Patch, x: nat)
    requires Layout(recs, owner, fl, fileEnd) && OpsApart(direct, a, b)
    requires v in Plan(recs, direct, a) && w in Plan(recs, direct, b)
    ensures !(Hull(v, x) && Data(w, x))
  {
    hide Layout, Plan, FileOff;
    var s := PlanParts(recs, owner, fl, fileEnd, direct, a, v);
    var t := PlanParts(recs, owner, fl, fileEnd, direct, b, w);
    if Data(w, x) {
      var q: nat := w.lo + (x - Pos(w));
      assert FileOff(recs[w.key].ext, q) == x;
      HullIsLogical(recs, owner, fl, fileEnd, v, w.key, q);
      assert Hull(v, x) && direct ==> InBlocks(s.off, |s.buf|, q);
      OwnBlocks(t.off, |t.buf|, q);
    }
  }

  lemma OwnBlocks(lo: nat, n: nat, q: nat)
    ensures lo <= q < lo + n ==> InBlocks(lo, n, q)
  {
  }

  ghost predicate ProcessesApart(direct: bool, opss: seq<seq<Op>>) {
    forall p, q, a, b | 0 <= p < |opss| && 0 <= q < |opss| && p != q && a in opss[p] && b in opss[q] ::
      OpsApart(direct, a, b)
  }

  lemma {:induction false} PlanAllFrom(recs: map<Key, Rec>, direct: bool, ops: seq<Op>, w: Patch)
    requires AllWrites(ops) && w in PlanAll(recs, direct, ops)
    ensures exists op | op in ops :: w in Plan(recs, direct, op)
    decreases |ops|
  {
    hide Plan;
    var init, last := ops[..|ops| - 1], ops[|ops| - 1];
    if w in PlanAll(recs, direct, init) {
      PlanAllFrom(recs, direct, init, w);
      var op :| op in init && w in Plan(recs, direct, op);
      assert op in ops;
    } else {
      assert last in ops;
    }
  }

  lemma PlansIndependent(recs: map<Key, Rec>, owner: map<Extent, (Key, nat)>, fl: seq<Extent>, fileEnd: nat,
                         direct: bool, opss: seq<seq<Op>>)
    requires Layout(recs, owner, fl, fileEnd) && AllProcesses(opss) && ProcessesApart(direct, opss)
    ensures Independent(Plans(recs, direct, opss))
  {
    hide Layout, Plan, PlanAll, OpsApart;
    var plans := Plans(recs, direct, opss);
    forall p, q, v, w, x: nat | 0 <= p < |plans| && 0 <= q < |plans| && p != q && v in plans[p] && w in plans[q]
      ensures !(Hull(v, x) && Data(w, x))
    {
      PlanAllFrom(recs, direct, opss[p], v);
      PlanAllFrom(recs, direct, opss[q], w);
      var a :| a in opss[p] && v in Plan(recs, direct, a);
      var b :| b in opss[q] && w in Plan(recs, direct, b);
      ApartClear(recs, owner, fl, fileEnd, direct, a, b, v, w, x);
    }
  }

  lemma PlansContained(recs: map<Key, Rec>, owner: map<Extent, (Key, nat)>, fl: seq<Extent>, fileEnd: nat,
                       direct: bool, opss: seq<seq<Op>>)
    requires Layout(recs, owner, fl, fileEnd) && AllProcesses(opss)
    ensures AllContained(Plans(recs, direct, opss))
  {
    hide Layout, Plan, PlanAll;
    var plans := Plans(recs, direct, opss);
    forall p, w | 0 <= p < |plans| && w in plans[p] ensures Contained(w) {
      PlanAllFrom(recs, direct, opss[p], w);
      var op :| op in opss[p] && w in Plan(recs, direct, op);
      var _ := PlanParts(recs, owner, fl, fileEnd, direct, op, w);
    }
  }

  lemma SameView(recs: map<Key, Rec>, f: seq<byte>, g: seq<byte>)
    requires forall x: nat :: At(f, x) == At(g, x)
    ensures View(recs, f) == View(recs, g)
  {
    forall k | k in recs ensures Content(recs[k], f) == Content(recs[k], g) {
      SameRec(recs[k], f, g);
    }
  }

  /** Any number of processes, each with any list of writes and vectored writes; buffered, those of different processes
      share no byte, and uncached no block. However their transfers interleave, the records end as
      the abstract store has them after all the writes, one process after another. */
  lemma SharedAgreement(recs: map<Key, Rec>, owner: map<Extent, (Key, nat)>, fl: seq<Extent>, fileEnd: nat,
                        f: seq<byte>, direct: bool, opss: seq<seq<Op>>, run: seq<State>)
    requires Layout(recs, owner, fl, fileEnd) && AllProcesses(opss) && ProcessesApart(direct, opss)
    requires Complete(run, f, Plans(recs, direct, opss))
    ensures View(recs, run[|run| - 1].f) == Run(View(recs, f), Flat(opss), true).0
  {
    hide Layout, View, InTurn, Runs, ProcessesApart, Independent, AllContained, Plans;
    var plans := Plans(recs, direct, opss);
    PlansIndependent(recs, owner, fl, fileEnd, direct, opss);
    PlansContained(recs, owner, fl, fileEnd, direct, opss);
    forall x: nat ensures At(run[|run| - 1].f, x) == At(InTurn(f, plans), x) {
      AnyInterleaving(run, f, plans, x);
    }
    SameView(recs, run[|run| - 1].f, InTurn(f, plans));
    PlansSeen(recs, owner, fl, fileEnd, f, direct, opss);
  }
}
