/** What each operation of the abstract store does, byte by byte (include/libspill.h:286-359). */
module Laws {
  import opened Disk
  import opened Records
  import opened Spec

  predicate Named(k: Key) {
    1 <= |k| <= 255 && 0 !in k
  }

  /** Every key but `k` has the bytes it had. */
  ghost predicate OthersKept(m: Keyed, n: Keyed, k: Key) {
    forall j | j != k :: (j in n <==> j in m) && (j in m ==> n[j] == m[j])
  }

  /** Byte `p` of `c`, where what was never written is zero. */
  function Byte(c: seq<byte>, p: nat): byte {
    if p < |c| then c[p] else 0
  }

  ghost predicate Over(seg: Seg, p: nat) {
    seg.off <= p < seg.off + |seg.buf|
  }

  /** A key that is not a short C string is refused, and nothing else is refused as invalid. */
  lemma KeysRefused(m: Keyed, op: Op, shared: bool)
    ensures var (n, r) := Apply(m, op, shared);
            && (r.status == Inval <==> |op.key| == 0 || |op.key| > 255 || 0 in op.key)
            && (r.status == Inval ==> n == m && r == Reply(Inval, [], 0))
  {
    hide High, HighSpan, Overlays, Extend, Overlay, Put, Cuts;
  }

  // -------------------------------------------------------------------- write

  ghost predicate PutIn(c: seq<byte>, off: nat, buf: seq<byte>, d: seq<byte>) {
    && |d| == (if |c| < off + |buf| then off + |buf| else |c|)
    && forall p | 0 <= p < |d| :: d[p] == if off <= p < off + |buf| then buf[p - off] else Byte(c, p)
  }

  lemma PutDoes(c: seq<byte>, off: nat, buf: seq<byte>)
    ensures PutIn(c, off, buf, Put(c, off, buf))
  {
    hide Extend, Overlay;
    var e := Extend(c, off + |buf|);
    forall p | 0 <= p < |e| ensures e[p] == Byte(c, p) {
      assert At(e, p) == At(c, p);
    }
  }

  /** A write that would end at 2^64 or past it is refused; in a shared store so is one that would
      create or grow a record. Any other puts its bytes, zeroes the gap and touches nothing else. */
  lemma WriteLaw(m: Keyed, k: Key, off: nat, buf: seq<byte>, shared: bool)
    requires Named(k)
    ensures var (n, r) := Apply(m, Write(k, off, buf), shared);
            if off + |buf| >= 0x1_0000_0000_0000_0000 then n == m && r == Reply(Range, [], 0)
            else if shared && (k in m ==> off + |buf| > |m[k]|) then n == m && r == Reply(Mode, [], 0)
            else
              && r == Reply(Ok, [], 0) && k in n && OthersKept(m, n, k)
              && PutIn(if k in m then m[k] else [], off, buf, n[k])
  {
    hide Put, PutIn;
    PutDoes(Old(m, k), off, buf);
  }

  lemma ReadLaw(m: Keyed, k: Key, off: nat, len: nat, shared: bool)
    requires Named(k)
    ensures var (n, r) := Apply(m, Read(k, off, len), shared);
            && n == m
            && if off + len >= 0x1_0000_0000_0000_0000 then r == Reply(Range, [], 0)
               else if k !in m then r == Reply(NoKey, [], 0)
               else if off + len > |m[k]| then r == Reply(Range, [], 0)
               else r == Reply(Ok, [m[k][off..off + len]], 0)
  {
  }

  /** A read after a write sees the bytes written and, around them, what was there. */
  lemma ReadAfterWrite(m: Keyed, k: Key, off: nat, buf: seq<byte>, at: nat, len: nat, shared: bool)
    requires Named(k) && Apply(m, Write(k, off, buf), shared).1.status == Ok
    requires at + len <= off + |buf| || (k in m && at + len <= |m[k]|)
    requires at + len < 0x1_0000_0000_0000_0000
    ensures var n := Apply(m, Write(k, off, buf), shared).0;
            var r := Apply(n, Read(k, at, len), shared).1;
            && r.status == Ok && |r.data| == 1 && |r.data[0]| == len
            && forall i | 0 <= i < len :: r.data[0][i] ==
                 if off <= at + i < off + |buf| then buf[at + i - off]
                 else if k in m then Byte(m[k], at + i) else 0
  {
    hide Apply, PutIn;
    var n := Apply(m, Write(k, off, buf), shared).0;
    WriteLaw(m, k, off, buf, shared);
    ReadLaw(n, k, at, len, shared);
    var c := if k in m then m[k] else [];
    PutLength(c, off, buf, n[k]);
    var d := n[k][at..at + len];
    forall i | 0 <= i < len
      ensures d[i] == if off <= at + i < off + |buf| then buf[at + i - off]
                      else if k in m then Byte(m[k], at + i) else 0
    {
      PutByte(c, off, buf, n[k], at + i);
    }
  }

  lemma PutLength(c: seq<byte>, off: nat, buf: seq<byte>, d: seq<byte>)
    requires PutIn(c, off, buf, d)
    ensures |c| <= |d| && off + |buf| <= |d|
  {
  }

  lemma PutByte(c: seq<byte>, off: nat, buf: seq<byte>, d: seq<byte>, p: nat)
    requires PutIn(c, off, buf, d) && (p < |c| || p < off + |buf|)
    ensures p < |d| && d[p] == if off <= p < off + |buf| then buf[p - off] else Byte(c, p)
  {
  }

  // ----------------------------------------------------------- layout changes

  /** A reservation grows a record with zeros and never shrinks it. */
  lemma ReserveLaw(m: Keyed, k: Key, size: nat, shared: bool)
    requires Named(k)
    ensures var (n, r) := Apply(m, Reserve(k, size), shared);
            if shared then n == m && r == Reply(Mode, [], 0)
            else
              var c := if k in m then m[k] else [];
              && r == Reply(Ok, [], 0) && k in n && OthersKept(m, n, k)
              && |n[k]| == (if |c| < size then size else |c|)
              && forall p | 0 <= p < |n[k]| :: n[k][p] == Byte(c, p)
  {
    hide Extend;
    if !shared {
      var n, c := Apply(m, Reserve(k, size), shared).0, Old(m, k);
      forall p | 0 <= p < |n[k]| ensures n[k][p] == Byte(c, p) {
        assert At(n[k], p) == At(c, p);
      }
    }
  }

  /** An append lands where the record ended, and says so; one past 2^64 still creates the key. */
  lemma AppendLaw(m: Keyed, k: Key, buf: seq<byte>, shared: bool)
    requires Named(k)
    ensures var (n, r) := Apply(m, Append(k, buf), shared);
            if shared then n == m && r == Reply(Mode, [], 0)
            else
              var c := if k in m then m[k] else [];
              && k in n && OthersKept(m, n, k)
              && if |c| + |buf| >= 0x1_0000_0000_0000_0000 then n[k] == c && r == Reply(Range, [], 0)
                 else n[k] == c + buf && r == Reply(Ok, [], |c|)
  {
  }

  lemma EraseLaw(m: Keyed, k: Key, shared: bool)
    requires Named(k)
    ensures var (n, r) := Apply(m, Erase(k), shared);
            if shared then n == m && r == Reply(Mode, [], 0)
            else if k !in m then n == m && r == Reply(NoKey, [], 0)
            else r == Reply(Ok, [], 0) && k !in n && OthersKept(m, n, k)
  {
  }

  // ----------------------------------------------------------------- vectored

  /** The high-water mark of some segments is the furthest end, no more. */
  lemma {:induction false} HighExact(segs: seq<Seg>, n: nat)
    ensures High(segs) > n <==> exists i | 0 <= i < |segs| :: segs[i].off + |segs[i].buf| > n
  {
    if segs != [] {
      var init, last := segs[..|segs| - 1], segs[|segs| - 1];
      HighExact(init, n);
      if High(init) > n {
        var i :| 0 <= i < |init| && init[i].off + |init[i].buf| > n;
        assert segs[i] == init[i];
      }
      if exists i | 0 <= i < |segs| :: segs[i].off + |segs[i].buf| > n {
        var i :| 0 <= i < |segs| && segs[i].off + |segs[i].buf| > n;
        assert i == |segs| - 1 || init[i] == segs[i];
      }
    }
  }

  lemma OneHigh(off: nat, buf: seq<byte>)
    ensures High([Seg(off, buf)]) == off + |buf|
  {
    assert [Seg(off, buf)][..0] == [];
  }

  lemma {:induction false} HighSpanExact(spans: seq<Span>, n: nat)
    ensures HighSpan(spans) > n <==> exists i | 0 <= i < |spans| :: spans[i].off + spans[i].len > n
  {
    if spans != [] {
      var init, last := spans[..|spans| - 1], spans[|spans| - 1];
      HighSpanExact(init, n);
      if HighSpan(init) > n {
        var i :| 0 <= i < |init| && init[i].off + init[i].len > n;
        assert spans[i] == init[i];
      }
      if exists i | 0 <= i < |spans| :: spans[i].off + spans[i].len > n {
        var i :| 0 <= i < |spans| && spans[i].off + spans[i].len > n;
        assert i == |spans| - 1 || init[i] == spans[i];
      }
    }
  }

  ghost predicate SomePast(spans: seq<Span>, n: nat) {
    exists i | 0 <= i < |spans| :: spans[i].off + spans[i].len > n
  }

  ghost predicate SomeSegPast(segs: seq<Seg>, n: nat) {
    exists i | 0 <= i < |segs| :: segs[i].off + |segs[i].buf| > n
  }

  /** A vectored read gives every range, or none if some range ends past the record. */
  lemma ReadvLaw(m: Keyed, k: Key, spans: seq<Span>, shared: bool)
    requires Named(k)
    ensures var (n, r) := Apply(m, Readv(k, spans), shared);
            && n == m
            && if spans == [] then r == Reply(Ok, [], 0)
               else if SomePast(spans, 0xffff_ffff_ffff_ffff) then r == Reply(Range, [], 0)
               else if k !in m then r == Reply(NoKey, [], 0)
               else if SomePast(spans, |m[k]|) then r == Reply(Range, [], 0)
               else
                 && r.status == Ok && r.pos == 0 && |r.data| == |spans|
                 && forall i | 0 <= i < |spans| ::
                      && spans[i].off + spans[i].len <= |m[k]|
                      && r.data[i] == m[k][spans[i].off..spans[i].off + spans[i].len]
  {
    hide HighSpan;
    HighSpanExact(spans, 0xffff_ffff_ffff_ffff);
    if k in m {
      HighSpanExact(spans, |m[k]|);
    }
  }

  /** Segment `i` is the last that covers byte `p`. */
  ghost predicate LastOver(segs: seq<Seg>, i: nat, p: nat) {
    i < |segs| && Over(segs[i], p) && forall j | i < j < |segs| :: !Over(segs[j], p)
  }

  ghost predicate NoneOver(segs: seq<Seg>, p: nat) {
    forall j | 0 <= j < |segs| :: !Over(segs[j], p)
  }

  /** The bytes of `c`, grown just enough, with each byte taken from the last segment over it. */
  ghost predicate WroteAll(c: seq<byte>, segs: seq<Seg>, d: seq<byte>) {
    && |c| <= |d| && !SomeSegPast(segs, |d|)
    && (|d| > |c| ==> SomeSegPast(segs, |d| - 1))
    && (forall p: nat, i: nat | p < |d| && LastOver(segs, i, p) :: d[p] == segs[i].buf[p - segs[i].off])
    && (forall p: nat | p < |d| && NoneOver(segs, p) :: d[p] == Byte(c, p))
  }

  lemma {:induction false} OverlaysAt(e: seq<byte>, segs: seq<Seg>, p: nat)
    requires High(segs) <= |e| && p < |e|
    ensures NoneOver(segs, p) ==> Overlays(e, segs)[p] == e[p]
    ensures forall i: nat | LastOver(segs, i, p) :: Overlays(e, segs)[p] == segs[i].buf[p - segs[i].off]
  {
    hide Overlay;
    if segs != [] {
      var n := |segs| - 1;
      var init, last := segs[..n], segs[n];
      OverlaysAt(e, init, p);
      assert Overlays(e, segs) == Overlay(Overlays(e, init), last.off, last.buf);
      if NoneOver(segs, p) {
        assert !Over(segs[n], p);
        assert NoneOver(init, p);
      }
      forall i: nat | LastOver(segs, i, p) ensures Overlays(e, segs)[p] == segs[i].buf[p - segs[i].off] {
        if i < n {
          assert !Over(segs[n], p);
          assert LastOver(init, i, p);
        }
      }
    }
  }

  lemma OverlaysWroteAll(c: seq<byte>, segs: seq<Seg>)
    ensures WroteAll(c, segs, Overlays(Extend(c, High(segs)), segs))
  {
    hide High, Overlays, Extend, LastOver, NoneOver, SomeSegPast;
    var e := Extend(c, High(segs));
    var d := Overlays(e, segs);
    EndsWithin(segs, |d|);
    if |d| > |c| {
      EndsWithin(segs, |d| - 1);
    }
    forall p: nat, i: nat | p < |d| && LastOver(segs, i, p)
      ensures i < |segs| && segs[i].off <= p < segs[i].off + |segs[i].buf| && d[p] == segs[i].buf[p - segs[i].off]
    {
      OverlaysAt(e, segs, p);
      OverIt(segs, i, p);
    }
    forall p: nat | p < |d| && NoneOver(segs, p) ensures d[p] == Byte(c, p) {
      OverlaysAt(e, segs, p);
      assert At(e, p) == At(c, p);
    }
  }

  lemma OverIt(segs: seq<Seg>, i: nat, p: nat)
    requires LastOver(segs, i, p)
    ensures i < |segs| && segs[i].off <= p < segs[i].off + |segs[i].buf|
  {
  }

  lemma EndsWithin(segs: seq<Seg>, n: nat)
    ensures SomeSegPast(segs, n) <==> High(segs) > n
  {
    HighExact(segs, n);
  }

  /** A vectored write is refused if some segment ends at 2^64 or past it, or would grow a shared
      record; else every byte comes from the last segment over it, and nothing else changes. */
  lemma WritevLaw(m: Keyed, k: Key, segs: seq<Seg>, shared: bool)
    requires Named(k)
    ensures var (n, r) := Apply(m, Writev(k, segs), shared);
            if segs == [] then n == m && r == Reply(Ok, [], 0)
            else if SomeSegPast(segs, 0xffff_ffff_ffff_ffff) then n == m && r == Reply(Range, [], 0)
            else if shared && (k in m ==> SomeSegPast(segs, |m[k]|)) then n == m && r == Reply(Mode, [], 0)
            else
              && r == Reply(Ok, [], 0) && k in n && OthersKept(m, n, k)
              && WroteAll(if k in m then m[k] else [], segs, n[k])
  {
    hide High, Overlays, Extend, WroteAll, SomeSegPast;
    EndsWithin(segs, 0xffff_ffff_ffff_ffff);
    if k in m {
      EndsWithin(segs, |m[k]|);
    }
    OverlaysWroteAll(Old(m, k), segs);
  }

  // ------------------------------------------------------- failures and runs

  /** What a failed operation spares: other keys, sizes it did not reach, and every byte it was not
      about to write. Reads change nothing and an erase does not fail. */
  lemma FailureLaw(m: Keyed, n: Keyed, op: Op, shared: bool, r: Reply)
    requires Did(m, n, op, shared, r) && r.status == Io
    ensures r == Reply(Io, [], 0) && !op.Erase? && OthersKept(m, n, op.key)
    ensures op.Read? || op.Readv? ==> n == m
    ensures !(op.Read? || op.Readv?) ==>
              && op.key in n
              && var c := if op.key in m then m[op.key] else [];
                 && |c| <= |n[op.key]| && (|c| < |n[op.key]| ==> Furthest(c, op, |n[op.key]|))
                 && forall p: nat | p < |n[op.key]| && !Aimed(c, op, p) :: n[op.key][p] == Byte(c, p)
  {
    hide High;
    if !(op.Read? || op.Readv?) {
      var k, c := op.key, Old(m, op.key);
      var segs := Targets(m, op);
      if |c| < |n[k]| {
        FurthestIs(m, op);
      }
      forall p: nat | p < |n[k]| && !Aimed(c, op, p) ensures n[k][p] == Byte(c, p) {
        AimedAt(m, op, p);
        if n != m[k := c] {
          assert At(n[k], p) == At(Extend(c, High(segs)), p) == At(c, p);
        }
      }
    }
  }

  /** The bytes an operation is about to write. */
  ghost predicate Aimed(c: seq<byte>, op: Op, p: nat) {
    match op
    case Write(_, off, buf) => off <= p < off + |buf|
    case Append(_, buf) => |c| <= p < |c| + |buf|
    case Writev(_, segs) => exists i | 0 <= i < |segs| :: segs[i].off <= p < segs[i].off + |segs[i].buf|
    case _ => false
  }

  /** The operation would have ended the record at `e`. */
  ghost predicate Furthest(c: seq<byte>, op: Op, e: nat) {
    match op
    case Write(_, off, buf) => e == off + |buf|
    case Append(_, buf) => e == |c| + |buf|
    case Writev(_, segs) =>
      && (exists i | 0 <= i < |segs| :: segs[i].off + |segs[i].buf| == e)
      && forall i | 0 <= i < |segs| :: segs[i].off + |segs[i].buf| <= e
    case _ => false
  }

  lemma FurthestIs(m: Keyed, op: Op)
    requires (op.Write? || op.Append? || op.Writev?) && High(Targets(m, op)) > 0
    ensures Furthest(Old(m, op.key), op, High(Targets(m, op)))
  {
    hide High;
    match op
    case Write(_, off, buf) => OneHigh(off, buf);
    case Append(k, buf) => OneHigh(|Old(m, k)|, buf);
    case Writev(_, segs) =>
      HighExact(segs, High(segs) - 1);
      var i :| 0 <= i < |segs| && segs[i].off + |segs[i].buf| > High(segs) - 1;
  }

  lemma AimedAt(m: Keyed, op: Op, p: nat)
    requires !op.Read? && !op.Readv?
    ensures InSegs(Targets(m, op), p) ==> Aimed(Old(m, op.key), op, p)
  {
  }

  /** A run answers each operation from the state its predecessors left. */
  lemma RunLaw(m: Keyed, ops: seq<Op>, op: Op, shared: bool)
    ensures Run(m, [], shared) == (m, [])
    ensures var (n, rs) := Run(m, ops, shared);
            var (l, r) := Apply(n, op, shared);
            Run(m, ops + [op], shared) == (l, rs + [r])
  {
    hide Apply;
    assert (ops + [op])[..|ops| + 1 - 1] == ops;
  }

  /** What is asked of a reduction: it keeps lengths, and may be applied 1048576 bytes at a time. */
  lemma SplitsLaw(op: Reduction)
    ensures Splits(op) <==>
              && (forall a, b | |a| == |b| :: |op(a, b)| == |a|)
              && (forall a, b, c, d | |a| == |b| == 1048576 && |c| == |d| :: op(a + c, b + d) == op(a, b) + op(c, d))
  {
  }

  /** Accumulating changes the range it names, to what the reduction makes of it, and no more. */
  lemma ReducedLaw(c: seq<byte>, off: nat, buf: seq<byte>, op: Reduction)
    requires off + |buf| <= |c| && |op(c[off..off + |buf|], buf)| == |buf|
    ensures |Reduced(c, off, buf, op)| == |c|
    ensures Reduced(c, off, buf, op)[off..off + |buf|] == op(c[off..off + |buf|], buf)
    ensures forall p | 0 <= p < |c| && !(off <= p < off + |buf|) :: Reduced(c, off, buf, op)[p] == c[p]
  {
  }

  /** No answer but to a bad key is "invalid". */
  lemma NotInvalid(m: Keyed, n: Keyed, op: Op, shared: bool, r: Reply)
    requires 1 <= |op.key| <= 255 && 0 !in op.key && Did(m, n, op, shared, r)
    ensures r.status != Inval
  {
    hide Apply, Aftermath;
    KeysRefused(m, op, shared);
  }

  // -------------------------------------------------------------- how far a run goes

  /** What an operation asks for: the furthest end it names, or the bytes it appends. */
  function Asked(op: Op): nat {
    match op
    case Write(_, off, buf) => off + |buf|
    case Append(_, buf) => |buf|
    case Reserve(_, n) => n
    case Writev(_, segs) => High(segs)
    case _ => 0
  }

  function AllAsked(ops: seq<Op>): nat {
    if ops == [] then 0 else AllAsked(ops[..|ops| - 1]) + Asked(ops[|ops| - 1])
  }

  ghost predicate NoLonger(m: Keyed, most: nat) {
    forall k | k in m :: |m[k]| <= most
  }

  /** A record grows by no more than an operation asks. */
  lemma GrowsByAsked(m: Keyed, op: Op, shared: bool, most: nat)
    requires NoLonger(m, most)
    ensures NoLonger(Apply(m, op, shared).0, most + Asked(op))
  {
    hide High, Overlays;
  }

  lemma {:induction false} RunLengths(ops: seq<Op>, shared: bool)
    ensures NoLonger(Run(map[], ops, shared).0, AllAsked(ops))
    decreases |ops|
  {
    hide Apply, Asked;
    if ops != [] {
      var init := ops[..|ops| - 1];
      RunLengths(init, shared);
      GrowsByAsked(Run(map[], init, shared).0, ops[|ops| - 1], shared, AllAsked(init));
    }
  }
}
