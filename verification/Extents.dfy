/** Extents: where the bytes of a record lie in the file, and scatter I/O over them
    (src/internal.h:24-27, src/store.c:342-375). */
module Extents {
  import opened Disk

  const SUPER: nat := 4096

  datatype Extent = Extent(foff: nat, len: nat)

  function End(e: Extent): nat { e.foff + e.len }

  predicate Has(e: Extent, x: nat) { e.foff <= x < End(e) }

  predicate Apart(a: Extent, b: Extent) { End(a) <= b.foff || End(b) <= a.foff }

  ghost predicate Disjoint(ext: seq<Extent>) {
    forall i, j | 0 <= i < j < |ext| :: Apart(ext[i], ext[j])
  }

  ghost predicate Covers(ext: seq<Extent>, x: nat) {
    exists i | 0 <= i < |ext| :: Has(ext[i], x)
  }

  /** The capacity of an extent list (the record's ext_total). */
  function Total(ext: seq<Extent>): nat {
    if ext == [] then 0 else ext[0].len + Total(ext[1..])
  }

  /** The file offset of logical position `p`. */
  function FileOff(ext: seq<Extent>, p: nat): nat
    requires p < Total(ext)
  {
    if p < ext[0].len then ext[0].foff + p else FileOff(ext[1..], p - ext[0].len)
  }

  /** The whole capacity of an extent list, as bytes. */
  function Gather(ext: seq<Extent>, f: seq<byte>): (s: seq<byte>)
    ensures |s| == Total(ext)
    ensures forall p: nat | p < Total(ext) :: s[p] == At(f, FileOff(ext, p))
  {
    seq(Total(ext), p requires 0 <= p < Total(ext) => At(f, FileOff(ext, p)))
  }

  // -------------------------------------------------------- the address map

  lemma {:induction false} TotalAppend(a: seq<Extent>, b: seq<Extent>)
    ensures Total(a + b) == Total(a) + Total(b)
  {
    if a == [] {
      assert a + b == b;
    } else {
      assert (a + b)[1..] == a[1..] + b;
      TotalAppend(a[1..], b);
    }
  }

  lemma TotalTake(ext: seq<Extent>, i: nat)
    requires i < |ext|
    ensures Total(ext[..i + 1]) == Total(ext[..i]) + ext[i].len
    ensures Total(ext[..i + 1]) <= Total(ext)
  {
    assert ext[..i + 1] == ext[..i] + [ext[i]];
    TotalAppend(ext[..i], [ext[i]]);
    assert Total([ext[i]]) == ext[i].len + Total([]);
    assert ext == ext[..i + 1] + ext[i + 1..];
    TotalAppend(ext[..i + 1], ext[i + 1..]);
  }

  /** Growing a list does not move what it already addresses. */
  lemma {:induction false} FileOffPrefix(a: seq<Extent>, b: seq<Extent>, p: nat)
    requires p < Total(a)
    ensures p < Total(a + b) && FileOff(a + b, p) == FileOff(a, p)
  {
    TotalAppend(a, b);
    assert (a + b)[1..] == a[1..] + b;
    if p >= a[0].len {
      FileOffPrefix(a[1..], b, p - a[0].len);
    }
  }

  /** Positions past the old capacity are addressed by the added extents. */
  lemma {:induction false} FileOffSuffix(a: seq<Extent>, b: seq<Extent>, p: nat)
    requires Total(a) <= p < Total(a) + Total(b)
    ensures p < Total(a + b) && FileOff(a + b, p) == FileOff(b, p - Total(a))
  {
    TotalAppend(a, b);
    if a == [] {
      assert a + b == b;
    } else {
      assert (a + b)[1..] == a[1..] + b;
      FileOffSuffix(a[1..], b, p - a[0].len);
    }
  }

  lemma {:induction false} FileOffInside(ext: seq<Extent>, p: nat)
    requires p < Total(ext)
    ensures Covers(ext, FileOff(ext, p))
  {
    if p < ext[0].len {
      assert Has(ext[0], FileOff(ext, p));
    } else {
      FileOffInside(ext[1..], p - ext[0].len);
      var i :| 0 <= i < |ext[1..]| && Has(ext[1..][i], FileOff(ext, p));
      assert Has(ext[i + 1], FileOff(ext, p));
    }
  }

  /** Extent `i` holds exactly the logical positions from `Total(ext[..i])` on. */
  lemma {:induction false} FileOffIn(ext: seq<Extent>, i: nat, p: nat)
    requires i < |ext| && Disjoint(ext) && p < Total(ext)
    ensures var base := Total(ext[..i]);
            if base <= p < base + ext[i].len
            then FileOff(ext, p) == ext[i].foff + (p - base)
            else !Has(ext[i], FileOff(ext, p))
  {
    if i == 0 {
      if p >= ext[0].len {
        FileOffInside(ext[1..], p - ext[0].len);
      }
    } else {
      assert ext[..i][1..] == ext[1..][..i - 1];
      if p >= ext[0].len {
        FileOffIn(ext[1..], i - 1, p - ext[0].len);
      }
    }
  }

  lemma {:induction false} FileOffInjective(ext: seq<Extent>, p: nat, q: nat)
    requires Disjoint(ext) && p < q < Total(ext)
    ensures FileOff(ext, p) != FileOff(ext, q)
  {
    if p < ext[0].len {
      FileOffIn(ext, 0, q);
    } else {
      FileOffInjective(ext[1..], p - ext[0].len, q - ext[0].len);
    }
  }

  // -------------------------------------------------------------- scatter I/O

  /** `g` is `f` with logical range `[off, off + |buf|)` of the list replaced by `buf`, and
      nothing else changed anywhere. */
  ghost predicate Scattered(f: seq<byte>, g: seq<byte>, ext: seq<Extent>, off: nat, buf: seq<byte>) {
    && |f| <= |g|
    && (forall x: nat | !Covers(ext, x) :: At(g, x) == At(f, x))
    && (forall p: nat | p < Total(ext) ::
          At(g, FileOff(ext, p)) == if off <= p < off + |buf| then buf[p - off] else At(f, FileOff(ext, p)))
  }

  /** As `Scattered`, with unknown bytes inside the range. */
  ghost predicate ScatterTorn(f: seq<byte>, g: seq<byte>, ext: seq<Extent>, off: nat, n: nat) {
    && |f| <= |g|
    && (forall x: nat | !Covers(ext, x) :: At(g, x) == At(f, x))
    && (forall p: nat | p < Total(ext) && !(off <= p < off + n) ::
          At(g, FileOff(ext, p)) == At(f, FileOff(ext, p)))
  }

  /** A positional write inside extent `i` is a logical write. */
  lemma PieceTorn(f: seq<byte>, g: seq<byte>, ext: seq<Extent>, i: nat, pos: nat, n: nat)
    requires i < |ext| && Disjoint(ext)
    requires Total(ext[..i]) <= pos && pos + n <= Total(ext[..i]) + ext[i].len
    requires Torn(f, g, ext[i].foff + (pos - Total(ext[..i])), n)
    ensures ScatterTorn(f, g, ext, pos, n)
  {
    forall p: nat | p < Total(ext) && !(pos <= p < pos + n)
      ensures At(g, FileOff(ext, p)) == At(f, FileOff(ext, p))
    {
      FileOffIn(ext, i, p);
    }
    forall x: nat | !Covers(ext, x) ensures At(g, x) == At(f, x) {
      assert !Has(ext[i], x);
    }
  }

  lemma PieceWrote(f: seq<byte>, g: seq<byte>, ext: seq<Extent>, i: nat, pos: nat, buf: seq<byte>)
    requires i < |ext| && Disjoint(ext)
    requires Total(ext[..i]) <= pos && pos + |buf| <= Total(ext[..i]) + ext[i].len
    requires Wrote(f, g, ext[i].foff + (pos - Total(ext[..i])), buf)
    ensures Scattered(f, g, ext, pos, buf)
  {
    var at := ext[i].foff + (pos - Total(ext[..i]));
    forall p: nat | p < Total(ext)
      ensures At(g, FileOff(ext, p)) == if pos <= p < pos + |buf| then buf[p - pos] else At(f, FileOff(ext, p))
    {
      FileOffIn(ext, i, p);
      var x := FileOff(ext, p);
      assert At(g, x) == if at <= x < at + |buf| then buf[x - at] else At(f, x);
    }
    forall x: nat | !Covers(ext, x) ensures At(g, x) == At(f, x) {
      assert !Has(ext[i], x);
    }
  }

  lemma PieceRead(f: seq<byte>, ext: seq<Extent>, i: nat, pos: nat, got: seq<byte>)
    requires i < |ext| && Disjoint(ext)
    requires Total(ext[..i]) <= pos && pos + |got| <= Total(ext[..i]) + ext[i].len <= Total(ext)
    requires got == Slice(f, ext[i].foff + (pos - Total(ext[..i])), |got|)
    ensures forall q: nat | q < |got| :: got[q] == At(f, FileOff(ext, pos + q))
  {
    forall q: nat | q < |got| ensures got[q] == At(f, FileOff(ext, pos + q)) {
      FileOffIn(ext, i, pos + q);
    }
  }

  lemma ScatterNothing(f: seq<byte>, ext: seq<Extent>, off: nat)
    ensures Scattered(f, f, ext, off, []) && ScatterTorn(f, f, ext, off, 0)
  {
  }

  lemma ScatterJoin(f: seq<byte>, g: seq<byte>, h: seq<byte>, ext: seq<Extent>, off: nat, a: seq<byte>, b: seq<byte>)
    requires Scattered(f, g, ext, off, a) && Scattered(g, h, ext, off + |a|, b)
    ensures Scattered(f, h, ext, off, a + b)
  {
  }

  lemma ScatterTornJoin(f: seq<byte>, g: seq<byte>, h: seq<byte>, ext: seq<Extent>,
                        off: nat, a: seq<byte>, k: nat, n: nat)
    requires Scattered(f, g, ext, off, a) && ScatterTorn(g, h, ext, off + |a|, k) && |a| + k <= n
    ensures ScatterTorn(f, h, ext, off, n)
  {
  }

  /** How many bytes from `p` on lie in the same extent. */
  function Left(ext: seq<Extent>, p: nat): (n: nat)
    requires p < Total(ext)
    ensures 0 < n && p + n <= Total(ext)
  {
    if p < ext[0].len then ext[0].len - p else Left(ext[1..], p - ext[0].len)
  }

  lemma {:induction false} LeftAt(ext: seq<Extent>, i: nat, p: nat)
    requires i < |ext| && Total(ext[..i]) <= p < Total(ext[..i]) + ext[i].len
    ensures p < Total(ext) && FileOff(ext, p) == ext[i].foff + (p - Total(ext[..i]))
    ensures Left(ext, p) == Total(ext[..i]) + ext[i].len - p
  {
    TotalTake(ext, i);
    if i > 0 {
      assert ext[..i][1..] == ext[1..][..i - 1];
      LeftAt(ext[1..], i - 1, p - ext[0].len);
    }
  }

  /** One positional write: `bytes` of the record from `lo` on, at `pos` in the file. */
  datatype Strip = Strip(pos: nat, lo: nat, bytes: seq<byte>)

  /** The writes a scatter breaks into, one for each extent it crosses. */
  function Strips(ext: seq<Extent>, lo: nat, bytes: seq<byte>): seq<Strip>
    decreases |bytes|
  {
    if bytes == [] || lo >= Total(ext) then []
    else
      var k := Min(|bytes|, Left(ext, lo));
      [Strip(FileOff(ext, lo), lo, bytes[..k])] + Strips(ext, lo + k, bytes[k..])
  }

  /** The part of a scatter that lies in extent `i`, which starts at `base` in the record. */
  method WriteStrip(file: File, ext: seq<Extent>, i: nat, base: nat, pos: nat, piece: seq<byte>) returns (ok: bool)
    requires file.Sane() && Disjoint(ext) && i < |ext| && base == Total(ext[..i])
    requires base <= pos && pos + |piece| <= base + ext[i].len
    modifies file
    ensures file.Sane() && (old(file.Clean()) ==> file.Clean() && ok)
    ensures ok ==> Scattered(old(file.data), file.data, ext, pos, piece)
    ensures ScatterTorn(old(file.data), file.data, ext, pos, |piece|)
  {
    hide Scattered, ScatterTorn, Wrote, Torn, Disjoint, At, Total;
    ok := file.WriteAll(ext[i].foff + (pos - base), piece);
    PieceTorn(old(file.data), file.data, ext, i, pos, |piece|);
    if ok {
      PieceWrote(old(file.data), file.data, ext, i, pos, piece);
    }
  }

  method ScatterWrite(file: File, ext: seq<Extent>, off: nat, buf: seq<byte>) returns (ok: bool, ghost issued: seq<Strip>)
    requires file.Sane() && Disjoint(ext)
    modifies file
    ensures file.Sane() && (old(file.Clean()) ==> file.Clean())
    ensures old(file.Clean()) && off + |buf| <= Total(ext) ==> ok
    ensures ok && buf != [] ==> off + |buf| <= Total(ext)
    ensures ok ==> Scattered(old(file.data), file.data, ext, off, buf) && issued == Strips(ext, off, buf)
    ensures ScatterTorn(old(file.data), file.data, ext, off, |buf|) && |old(file.data)| <= |file.data|
  {
    hide Scattered, ScatterTorn, Disjoint, Strips, Total, Progress;
    issued := [];
    ProgressStart(file.data, ext, off, buf);
    var base: nat, done: nat, i: nat := 0, 0, 0;
    while i < |ext| && done < |buf|
      invariant i <= |ext| && done <= |buf|
      invariant base == Total(ext[..i]) <= Total(ext)
      invariant done < |buf| ==> base <= off + done
      invariant done > 0 ==> off + done <= Total(ext)
      invariant file.Sane() && (old(file.Clean()) ==> file.Clean())
      invariant Progress(old(file.data), file.data, ext, off, buf, done, issued)
    {
      TotalTake(ext, i);
      var high := base + ext[i].len;
      if off + done < high {
        var k := Min(high - (off + done), |buf| - done);
        ghost var before := file.data;
        ok := WriteStrip(file, ext, i, base, off + done, buf[done..done + k]);
        if !ok {
          ProgressTorn(old(file.data), before, file.data, ext, off, buf, done, issued, k);
          return;
        }
        issued := ProgressNext(old(file.data), before, file.data, ext, off, buf, done, issued, i, k);
        done := done + k;
      }
      base := high;
      i := i + 1;
    }
    assert ext[..|ext|] == ext;
    ok := done == |buf|;
    ProgressEnd(old(file.data), file.data, ext, off, buf, done, issued);
  }

  /** Where a scatter stands after `done` bytes. */
  ghost predicate Progress(f: seq<byte>, g: seq<byte>, ext: seq<Extent>, off: nat, buf: seq<byte>, done: nat,
                           issued: seq<Strip>) {
    && done <= |buf| && Scattered(f, g, ext, off, buf[..done])
    && issued + Strips(ext, off + done, buf[done..]) == Strips(ext, off, buf)
  }

  lemma ProgressStart(f: seq<byte>, ext: seq<Extent>, off: nat, buf: seq<byte>)
    ensures Progress(f, f, ext, off, buf, 0, []) && Total(ext[..0]) == 0
  {
    hide Scattered;
    ScatterNothing(f, ext, off);
    assert buf[..0] == [] && buf[0..] == buf;
  }

  lemma ProgressTorn(f: seq<byte>, g: seq<byte>, h: seq<byte>, ext: seq<Extent>, off: nat, buf: seq<byte>, done: nat,
                     issued: seq<Strip>, k: nat)
    requires Progress(f, g, ext, off, buf, done, issued) && done + k <= |buf|
    requires ScatterTorn(g, h, ext, off + done, k)
    ensures ScatterTorn(f, h, ext, off, |buf|) && |f| <= |h|
  {
    assert |f| <= |g| <= |h|;
    hide Scattered, ScatterTorn, Strips;
    ScatterTornJoin(f, g, h, ext, off, buf[..done], k, |buf|);
  }

  lemma ProgressNext(f: seq<byte>, g: seq<byte>, h: seq<byte>, ext: seq<Extent>, off: nat, buf: seq<byte>, done: nat,
                     issued: seq<Strip>, i: nat, k: nat) returns (more: seq<Strip>)
    requires Progress(f, g, ext, off, buf, done, issued) && i < |ext| && done < |buf|
    requires Total(ext[..i]) <= off + done < Total(ext[..i]) + ext[i].len
    requires k == Min(Total(ext[..i]) + ext[i].len - (off + done), |buf| - done)
    requires Scattered(g, h, ext, off + done, buf[done..done + k])
    ensures more == issued + [Strip(ext[i].foff + (off + done - Total(ext[..i])), off + done, buf[done..done + k])]
    ensures Progress(f, h, ext, off, buf, done + k, more)
  {
    hide Scattered, Strips, Total;
    var strip := Strip(ext[i].foff + (off + done - Total(ext[..i])), off + done, buf[done..done + k]);
    more := issued + [strip];
    ScatterJoin(f, g, h, ext, off, buf[..done], buf[done..done + k]);
    assert buf[..done] + buf[done..done + k] == buf[..done + k];
    NextStrip(ext, i, off + done, buf[done..], k);
    assert buf[done..][..k] == buf[done..done + k] && buf[done..][k..] == buf[done + k..];
    var rest := Strips(ext, off + done + k, buf[done + k..]);
    assert issued + ([strip] + rest) == more + rest;
  }

  lemma NextStrip(ext: seq<Extent>, i: nat, lo: nat, bytes: seq<byte>, k: nat)
    requires i < |ext| && bytes != [] && Total(ext[..i]) <= lo < Total(ext[..i]) + ext[i].len
    requires k == Min(Total(ext[..i]) + ext[i].len - lo, |bytes|)
    ensures Strips(ext, lo, bytes)
         == [Strip(ext[i].foff + (lo - Total(ext[..i])), lo, bytes[..k])] + Strips(ext, lo + k, bytes[k..])
  {
    hide FileOff, Left, Total;
    LeftAt(ext, i, lo);
  }

  lemma ProgressEnd(f: seq<byte>, g: seq<byte>, ext: seq<Extent>, off: nat, buf: seq<byte>, done: nat, issued: seq<Strip>)
    requires Progress(f, g, ext, off, buf, done, issued)
    ensures ScatterTorn(f, g, ext, off, |buf|) && |f| <= |g|
    ensures done == |buf| ==> Scattered(f, g, ext, off, buf) && issued == Strips(ext, off, buf)
  {
    assert |f| <= |g|;
    hide Scattered, ScatterTorn;
    ScatterNothing(g, ext, off + done);
    ScatterTornJoin(f, g, g, ext, off, buf[..done], 0, |buf|);
    assert buf[..|buf|] == buf && buf[|buf|..] == [];
  }

  method ScatterRead(file: File, ext: seq<Extent>, off: nat, n: nat) returns (ok: bool, got: seq<byte>)
    requires file.Sane() && Disjoint(ext)
    modifies file`script
    ensures file.Sane() && (old(file.Clean()) ==> file.Clean())
    ensures ok && n > 0 ==> off + n <= Total(ext)
    ensures ok ==> |got| == n && forall q: nat | q < n && n > 0 :: got[q] == At(file.data, FileOff(ext, off + q))
    ensures old(file.Clean()) && off + n <= Total(ext) && (forall e | e in ext :: End(e) <= |file.data|) ==> ok
  {
    hide At, Disjoint;
    var base: nat, i: nat := 0, 0;
    got := [];
    assert ext[..0] == [];
    while i < |ext| && |got| < n
      invariant i <= |ext| && |got| <= n
      invariant base == Total(ext[..i]) <= Total(ext)
      invariant |got| < n ==> base <= off + |got|
      invariant |got| > 0 ==> off + |got| <= Total(ext)
      invariant file.Sane() && (old(file.Clean()) ==> file.Clean())
      invariant forall q: nat | q < |got| :: got[q] == At(file.data, FileOff(ext, off + q))
    {
      TotalTake(ext, i);
      var high := base + ext[i].len;
      if off + |got| < high {
        var k := Min(high - (off + |got|), n - |got|);
        assert ext[i] in ext;
        var more;
        ok, more := file.ReadAll(ext[i].foff + (off + |got| - base), k);
        if !ok {
          return;
        }
        PieceRead(file.data, ext, i, off + |got|, more);
        assert forall q: nat | q < k :: (got + more)[|got| + q] == more[q];
        got := got + more;
      }
      base := high;
      i := i + 1;
    }
    assert ext[..|ext|] == ext;
    ok := |got| == n;
  }
}
