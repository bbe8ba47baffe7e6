/** What a store promises its caller: a map from keys to bytes with zero-filled gaps and range
    errors (include/libspill.h:286-359). No file, extent, buffer or budget appears here. */
module Spec {
  import opened Disk
  import opened Records

  /** Sizes and offsets are 64-bit; a range that wraps is refused. */
  const LIMIT: nat := 0x1_0000_0000_0000_0000

  datatype Status = Ok | NoKey | Range | Inval | Mode | Io

  datatype Seg = Seg(off: nat, buf: seq<byte>)

  datatype Span = Span(off: nat, len: nat)

  datatype Op =
    | Write(key: Key, off: nat, buf: seq<byte>)
    | Read(key: Key, off: nat, n: nat)
    | Reserve(key: Key, n: nat)
    | Append(key: Key, buf: seq<byte>)
    | Erase(key: Key)
    | Writev(key: Key, segs: seq<Seg>)
    | Readv(key: Key, spans: seq<Span>)

  /** `data` is what a read returns, one entry per range; `pos` is where an append landed. */
  datatype Reply = Reply(status: Status, data: seq<seq<byte>>, pos: nat)

  function Just(s: Status): Reply { Reply(s, [], 0) }

  type Keyed = map<Key, seq<byte>>

  function Old(m: Keyed, k: Key): seq<byte> { if k in m then m[k] else [] }

  /** Zero-extend to at least `n` bytes; never shrinks. */
  function Extend(c: seq<byte>, n: nat): (d: seq<byte>)
    ensures |d| == Max(|c|, n)
    ensures forall p: nat :: At(d, p) == At(c, p)
  {
    if n <= |c| then c else c + Zeros(n - |c|)
  }

  function Overlay(c: seq<byte>, off: nat, buf: seq<byte>): (d: seq<byte>)
    requires off + |buf| <= |c|
    ensures |d| == |c|
    ensures forall p: nat | p < |c| :: d[p] == if off <= p < off + |buf| then buf[p - off] else c[p]
  {
    c[..off] + buf + c[off + |buf|..]
  }

  /** A write past the end extends, and leaves the gap zero. */
  function Put(c: seq<byte>, off: nat, buf: seq<byte>): seq<byte> {
    Overlay(Extend(c, off + |buf|), off, buf)
  }

  function High(segs: seq<Seg>): (h: nat)
    ensures forall i | 0 <= i < |segs| :: segs[i].off + |segs[i].buf| <= h
  {
    if segs == [] then 0
    else
      var last := segs[|segs| - 1];
      Max(High(segs[..|segs| - 1]), last.off + |last.buf|)
  }

  function HighSpan(spans: seq<Span>): (h: nat)
    ensures forall i | 0 <= i < |spans| :: spans[i].off + spans[i].len <= h
  {
    if spans == [] then 0
    else
      var last := spans[|spans| - 1];
      Max(HighSpan(spans[..|spans| - 1]), last.off + last.len)
  }

  function Overlays(c: seq<byte>, segs: seq<Seg>): (d: seq<byte>)
    requires High(segs) <= |c|
    ensures |d| == |c|
  {
    if segs == [] then c
    else
      var last := segs[|segs| - 1];
      Overlay(Overlays(c, segs[..|segs| - 1]), last.off, last.buf)
  }

  /** One range of a record; ranges are in bounds wherever this is used. */
  function Clip(c: seq<byte>, span: Span): seq<byte> {
    if span.off + span.len <= |c| then c[span.off..span.off + span.len] else []
  }

  function Cuts(c: seq<byte>, spans: seq<Span>): (d: seq<seq<byte>>)
    ensures |d| == |spans| && forall i | 0 <= i < |spans| :: d[i] == Clip(c, spans[i])
  {
    seq(|spans|, i requires 0 <= i < |spans| => Clip(c, spans[i]))
  }

  /** One operation on the abstract store. In a shared store nothing may grow. */
  function Apply(m: Keyed, op: Op, shared: bool): (Keyed, Reply) {
    if !KeyOk(op.key) then (m, Just(Inval)) else
    var c := Old(m, op.key);
    match op
    case Write(k, off, buf) =>
      if off + |buf| >= LIMIT then (m, Just(Range))
      else if shared && (k !in m || off + |buf| > |c|) then (m, Just(Mode))
      else (m[k := Put(c, off, buf)], Just(Ok))
    case Read(k, off, n) =>
      if off + n >= LIMIT then (m, Just(Range))
      else if k !in m then (m, Just(NoKey))
      else if off + n > |c| then (m, Just(Range))
      else (m, Reply(Ok, [c[off..off + n]], 0))
    case Reserve(k, n) =>
      if shared then (m, Just(Mode)) else (m[k := Extend(c, n)], Just(Ok))
    case Append(k, buf) =>
      if shared then (m, Just(Mode))
      else if |c| + |buf| >= LIMIT then (m[k := c], Just(Range))
      else (m[k := c + buf], Reply(Ok, [], |c|))
    case Erase(k) =>
      if shared then (m, Just(Mode))
      else if k !in m then (m, Just(NoKey))
      else (m - {k}, Just(Ok))
    case Writev(k, segs) =>
      if segs == [] then (m, Just(Ok))
      else if High(segs) >= LIMIT then (m, Just(Range))
      else if shared && (k !in m || High(segs) > |c|) then (m, Just(Mode))
      else (m[k := Overlays(Extend(c, High(segs)), segs)], Just(Ok))
    case Readv(k, spans) =>
      if spans == [] then (m, Just(Ok))
      else if HighSpan(spans) >= LIMIT then (m, Just(Range))
      else if k !in m then (m, Just(NoKey))
      else if HighSpan(spans) > |c| then (m, Just(Range))
      else (m, Reply(Ok, Cuts(c, spans), 0))
  }

  /** A run is operations applied one after another. */
  function Run(m: Keyed, ops: seq<Op>, shared: bool): (Keyed, seq<Reply>)
    decreases |ops|
  {
    if ops == [] then (m, [])
    else
      var (m1, rs) := Run(m, ops[..|ops| - 1], shared);
      var (m2, r) := Apply(m1, ops[|ops| - 1], shared);
      (m2, rs + [r])
  }

  lemma {:induction false} RunAppend(m: Keyed, a: seq<Op>, b: seq<Op>, shared: bool)
    ensures var (n, rs) := Run(m, a, shared); var (l, qs) := Run(n, b, shared);
            Run(m, a + b, shared) == (l, rs + qs)
    decreases |b|
  {
    hide Apply;
    var (n, rs) := Run(m, a, shared);
    var (l, qs) := Run(n, b, shared);
    if b == [] {
      assert a + b == a && rs + qs == rs;
    } else {
      var init := b[..|b| - 1];
      assert (a + b)[..|a + b| - 1] == a + init;
      RunAppend(m, a, init, shared);
      var r := Apply(Run(n, init, shared).0, b[|b| - 1], shared).1;
      assert rs + qs == rs + Run(n, init, shared).1 + [r];
    }
  }

  // ------------------------------------------------------------------ faults

  ghost predicate InSegs(segs: seq<Seg>, p: nat) {
    exists i | 0 <= i < |segs| :: segs[i].off <= p < segs[i].off + |segs[i].buf|
  }

  /** What an operation was about to write. */
  function Targets(m: Keyed, op: Op): seq<Seg> {
    match op
    case Write(_, off, buf) => [Seg(off, buf)]
    case Append(k, buf) => [Seg(|Old(m, k)|, buf)]
    case Writev(_, segs) => segs
    case _ => []
  }

  /** A data phase that failed: bytes of `k` inside `segs` may be anything, nothing else has
      changed, no size included. */
  ghost predicate Smudged(m: Keyed, n: Keyed, k: Key, segs: seq<Seg>) {
    && k in m && n.Keys == m.Keys
    && (forall j | j in m && j != k :: n[j] == m[j])
    && |n[k]| == |m[k]|
    && forall p: nat | !InSegs(segs, p) :: At(n[k], p) == At(m[k], p)
  }

  /** A write that failed: before its data phase, with `k` as it was (if empty, perhaps new); or
      in it, with `k` extended as if it had succeeded. */
  ghost predicate Spared(m: Keyed, n: Keyed, k: Key, segs: seq<Seg>) {
    || n == m[k := Old(m, k)]
    || Smudged(m[k := Extend(Old(m, k), High(segs))], n, k, segs)
  }

  /** What a failed operation leaves behind. An erase does not fail. */
  ghost predicate Aftermath(m: Keyed, n: Keyed, op: Op) {
    match op
    case Read(_, _, _) => n == m
    case Readv(_, _) => n == m
    case Reserve(k, _) => n == m[k := Old(m, k)]
    case Erase(_) => false
    case _ => Spared(m, n, op.key, Targets(m, op))
  }

  /** An operation either did what it does on the abstract store, or failed and spared
      everything it was not about to write. */
  ghost predicate Did(m: Keyed, n: Keyed, op: Op, shared: bool, r: Reply) {
    if r.status == Io then r == Just(Io) && Aftermath(m, n, op) else (n, r) == Apply(m, op, shared)
  }

  lemma DidIsApply(m: Keyed, n: Keyed, op: Op, shared: bool, r: Reply)
    requires Did(m, n, op, shared, r) && r.status != Io
    ensures (n, r) == Apply(m, op, shared)
  {
  }

  /** The states a run goes through, faults included. */
  ghost predicate Traced(trace: seq<Keyed>, ops: seq<Op>, shared: bool, replies: seq<Reply>) {
    && |trace| == |ops| + 1 && |replies| == |ops|
    && forall i | 0 <= i < |ops| :: Did(trace[i], trace[i + 1], ops[i], shared, replies[i])
  }

  /** Whatever fails in a run, a key it does not name keeps its bytes. */
  lemma {:induction false} RunSparesOtherKeys(trace: seq<Keyed>, ops: seq<Op>, shared: bool, replies: seq<Reply>, k: Key)
    requires Traced(trace, ops, shared, replies)
    requires forall i | 0 <= i < |ops| :: ops[i].key != k
    ensures k in trace[0] <==> k in trace[|ops|]
    ensures k in trace[0] ==> trace[|ops|][k] == trace[0][k]
  {
    if ops != [] {
      var n := |ops| - 1;
      RunSparesOtherKeys(trace[..n + 1], ops[..n], shared, replies[..n], k);
      assert Did(trace[n], trace[n + 1], ops[n], shared, replies[n]);
    }
  }

  // --------------------------------------------------------------- accumulate

  const CHUNK: nat := 1048576

  type Reduction = (seq<byte>, seq<byte>) -> seq<byte>

  /** The caller's arithmetic keeps lengths and may be applied chunk by chunk. */
  ghost predicate Splits(op: Reduction) {
    && (forall a, b | |a| == |b| :: |op(a, b)| == |a|)
    && (forall a, b, c, d | |a| == |b| == CHUNK && |c| == |d| :: op(a + c, b + d) == op(a, b) + op(c, d))
  }

  lemma KeepsLength(op: Reduction, a: seq<byte>, b: seq<byte>)
    requires Splits(op) && |a| == |b|
    ensures |op(a, b)| == |a|
  {
  }

  lemma SplitOnce(op: Reduction, a: seq<byte>, b: seq<byte>, c: seq<byte>, d: seq<byte>)
    requires Splits(op) && |a| == |b| == CHUNK && |c| == |d|
    ensures op(a + c, b + d) == op(a, b) + op(c, d)
  {
  }

  /** `c` with `buf` combined into it at `off`. */
  function Reduced(c: seq<byte>, off: nat, buf: seq<byte>, op: Reduction): seq<byte>
    requires off + |buf| <= |c|
  {
    var out := op(c[off..off + |buf|], buf);
    if |out| == |buf| then Overlay(c, off, out) else c
  }

  lemma {:induction false} SplitMany(op: Reduction, a: seq<byte>, b: seq<byte>, c: seq<byte>, d: seq<byte>)
    requires Splits(op) && |a| == |b| && |c| == |d| && |a| % CHUNK == 0
    ensures op(a + c, b + d) == op(a, b) + op(c, d)
  {
    hide Splits;
    if a == [] {
      KeepsLength(op, a, b);
      assert a + c == c && b + d == d;
    } else {
      var a0, a1, b0, b1 := a[..CHUNK], a[CHUNK..], b[..CHUNK], b[CHUNK..];
      SplitMany(op, a1, b1, c, d);
      SplitOnce(op, a0, b0, a1, b1);
      SplitOnce(op, a0, b0, a1 + c, b1 + d);
      assert a + c == a0 + (a1 + c) && b + d == b0 + (b1 + d);
      assert a == a0 + a1 && b == b0 + b1;
    }
  }

  // ---------------------------------------------------- vectored I/O is a fold

  function Puts(c: seq<byte>, segs: seq<Seg>): seq<byte> {
    if segs == [] then c
    else
      var last := segs[|segs| - 1];
      Put(Puts(c, segs[..|segs| - 1]), last.off, last.buf)
  }

  /** A vectored write is its segments written left to right. */
  lemma {:induction false} WritevIsFold(c: seq<byte>, segs: seq<Seg>, n: nat)
    requires High(segs) <= n
    ensures |Puts(c, segs)| == Max(|c|, High(segs))
    ensures Overlays(Extend(c, n), segs) == Extend(Puts(c, segs), n)
    ensures n == High(segs) ==> Overlays(Extend(c, n), segs) == Puts(c, segs)
  {
    hide Overlay, At;
    if segs != [] {
      var init := segs[..|segs| - 1];
      var last := segs[|segs| - 1];
      WritevIsFold(c, init, n);
      PutExtend(Puts(c, init), last.off, last.buf, n);
    }
  }

  /** Writing and then extending is extending and then overlaying. */
  lemma PutExtend(c: seq<byte>, off: nat, buf: seq<byte>, n: nat)
    requires off + |buf| <= n
    ensures Extend(Put(c, off, buf), n) == Overlay(Extend(c, n), off, buf)
  {
    hide Extend, Overlay;
    var a := Extend(Put(c, off, buf), n);
    var b := Overlay(Extend(c, n), off, buf);
    forall p: nat | p < |a| ensures a[p] == b[p] {
      assert At(a, p) == At(Put(c, off, buf), p);
      assert At(Extend(c, n), p) == At(c, p) == At(Extend(c, off + |buf|), p);
    }
  }
}
