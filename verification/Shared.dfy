/** Many processes on one file (include/libspill.h:104-140). Each has loaded the same frozen
    layout and carries out its own list of transfers; nothing orders one process against
    another.

    A transfer replaces `bytes` inside a window of the file. A buffered write has no more window
    than its bytes; an uncached one reads the aligned window back and later writes it whole
    (src/store.c:54-88), so other processes may run in between. */
module Shared {
  import opened Wrappers
  import opened Disk
  import opened Records
  import opened Spec

  /** Logical bytes `[lo, lo + |bytes|)` of `key`, at `base + skew` in a window of `span` bytes. */
  datatype Patch = Patch(key: Key, lo: nat, bytes: seq<byte>, base: nat, skew: nat, span: nat)

  function Pos(w: Patch): nat { w.base + w.skew }

  predicate Contained(w: Patch) { w.skew + |w.bytes| <= w.span }

  /** The file bytes `w` means to change. */
  predicate Data(w: Patch, x: nat) { Pos(w) <= x < Pos(w) + |w.bytes| }

  /** The file bytes `w` rewrites. */
  predicate Hull(w: Patch, x: nat) { w.base <= x < w.base + w.span }

  datatype Proc = Proc(todo: seq<Patch>, held: Option<seq<byte>>)

  datatype State = State(f: seq<byte>, procs: seq<Proc>)

  function Start(f: seq<byte>, progs: seq<seq<Patch>>): State {
    State(f, seq(|progs|, p requires 0 <= p < |progs| => Proc(progs[p], None)))
  }

  ghost predicate Finished(s: State) {
    forall p | 0 <= p < |s.procs| :: s.procs[p].todo == []
  }

  predicate Ready(s: State, p: nat) { p < |s.procs| && s.procs[p].todo != [] }

  /** Process `p` reads its next window. */
  function Load(s: State, p: nat): State
    requires Ready(s, p)
  {
    var w := s.procs[p].todo[0];
    s.(procs := s.procs[p := Proc(s.procs[p].todo, Some(Slice(s.f, w.base, w.span)))])
  }

  predicate CanSave(s: State, p: nat) {
    && Ready(s, p) && s.procs[p].held.Some?
    && Contained(s.procs[p].todo[0]) && |s.procs[p].held.value| == s.procs[p].todo[0].span
  }

  /** It overlays its bytes on the window it holds, and writes the window whole. */
  function Save(s: State, p: nat): State
    requires CanSave(s, p)
  {
    var w := s.procs[p].todo[0];
    State(WriteAt(s.f, w.base, Overlay(s.procs[p].held.value, w.skew, w.bytes)),
          s.procs[p := Proc(s.procs[p].todo[1..], None)])
  }

  ghost predicate Step(s: State, t: State, p: nat) {
    Ready(s, p) && if s.procs[p].held.None? then t == Load(s, p) else CanSave(s, p) && t == Save(s, p)
  }

  ghost predicate Runs(run: seq<State>) {
    run != [] && forall i | 0 <= i < |run| - 1 :: Moves(run[i], run[i + 1])
  }

  ghost predicate Moves(s: State, t: State) {
    exists p: nat :: Step(s, t, p)
  }

  /** A run from the first transfer of each of `progs` to the last. */
  ghost predicate Complete(run: seq<State>, f: seq<byte>, progs: seq<seq<Patch>>) {
    run != [] && Runs(run) && run[0] == Start(f, progs) && Finished(run[|run| - 1])
  }

  // ------------------------------------------------------------ one by itself

  /** What a list of transfers does alone: plain positional writes. */
  function Solo(f: seq<byte>, todo: seq<Patch>): seq<byte>
    decreases |todo|
  {
    if todo == [] then f else Solo(WriteAt(f, Pos(todo[0]), todo[0].bytes), todo[1..])
  }

  /** The processes one after another. */
  function InTurn(f: seq<byte>, progs: seq<seq<Patch>>): seq<byte>
    decreases |progs|
  {
    if progs == [] then f else InTurn(Solo(f, progs[0]), progs[1..])
  }

  ghost predicate Writes(prog: seq<Patch>, x: nat) {
    exists w | w in prog :: Data(w, x)
  }

  /** What becomes of one byte depends on no other byte. */
  lemma {:induction false} SoloLocal(f: seq<byte>, g: seq<byte>, todo: seq<Patch>, x: nat)
    requires At(f, x) == At(g, x)
    ensures At(Solo(f, todo), x) == At(Solo(g, todo), x)
    decreases |todo|
  {
    if todo != [] {
      SoloLocal(WriteAt(f, Pos(todo[0]), todo[0].bytes), WriteAt(g, Pos(todo[0]), todo[0].bytes), todo[1..], x);
    }
  }

  lemma {:induction false} SoloElsewhere(f: seq<byte>, todo: seq<Patch>, x: nat)
    requires !Writes(todo, x)
    ensures At(Solo(f, todo), x) == At(f, x)
    decreases |todo|
  {
    if todo != [] {
      assert todo[0] in todo;
      assert !Data(todo[0], x);
      SoloElsewhere(WriteAt(f, Pos(todo[0]), todo[0].bytes), todo[1..], x);
    }
  }

  // ----------------------------------------------------------- interleavings

  /** No process rewrites a byte that another means to change. */
  ghost predicate Independent(progs: seq<seq<Patch>>) {
    forall p, q, v, w, x: nat | 0 <= p < |progs| && 0 <= q < |progs| && p != q && v in progs[p] && w in progs[q] ::
      !(Hull(v, x) && Data(w, x))
  }

  ghost predicate AllContained(progs: seq<seq<Patch>>) {
    forall p, w | 0 <= p < |progs| && w in progs[p] :: Contained(w)
  }

  /** Every process still heads for what it would have done alone, and holds the window it
      would read now. */
  ghost predicate Inv(s: State, f: seq<byte>, progs: seq<seq<Patch>>) {
    && |s.procs| == |progs|
    && (forall p | 0 <= p < |progs| :: OnCourse(s.f, s.procs[p], f, progs[p]))
    && (forall x: nat | (forall p | 0 <= p < |progs| :: !Writes(progs[p], x)) :: At(s.f, x) == At(f, x))
  }

  ghost predicate OnCourse(g: seq<byte>, proc: Proc, f: seq<byte>, prog: seq<Patch>) {
    && (forall w | w in proc.todo :: w in prog)
    && (forall x: nat | Writes(prog, x) :: At(Solo(g, proc.todo), x) == At(Solo(f, prog), x))
    && (proc.held.Some? ==> proc.todo != [] && proc.held.value == Slice(g, proc.todo[0].base, proc.todo[0].span))
  }

  /** Overlaying the window just read and writing it back is the plain write. */
  lemma StoreIsWrite(g: seq<byte>, w: Patch)
    requires Contained(w)
    ensures forall x: nat ::
              At(WriteAt(g, w.base, Overlay(Slice(g, w.base, w.span), w.skew, w.bytes)), x)
              == At(WriteAt(g, Pos(w), w.bytes), x)
    ensures forall x: nat | !Data(w, x) :: At(WriteAt(g, Pos(w), w.bytes), x) == At(g, x)
  {
    hide WriteAt, Slice, Overlay;
  }

  /** A change that misses everything a process rewrites leaves it on course. */
  lemma OthersStay(g: seq<byte>, h: seq<byte>, proc: Proc, f: seq<byte>, prog: seq<Patch>, w: Patch)
    requires OnCourse(g, proc, f, prog)
    requires forall x: nat | !Data(w, x) :: At(h, x) == At(g, x)
    requires forall v, x: nat | v in prog :: !(Hull(v, x) && Data(w, x)) && !(Hull(w, x) && Data(v, x))
    requires Contained(w)
    ensures OnCourse(h, proc, f, prog)
  {
    forall x: nat | Writes(prog, x) ensures At(Solo(h, proc.todo), x) == At(Solo(f, prog), x) {
      var v :| v in prog && Data(v, x);
      assert Data(w, x) ==> Hull(w, x);
      SoloLocal(g, h, proc.todo, x);
    }
    if proc.held.Some? {
      var v := proc.todo[0];
      var now := Slice(h, v.base, v.span);
      forall i: nat | i < v.span ensures now[i] == proc.held.value[i] {
        assert Hull(v, v.base + i);
      }
    }
  }

  lemma MoverStays(g: seq<byte>, h: seq<byte>, proc: Proc, f: seq<byte>, prog: seq<Patch>)
    requires OnCourse(g, proc, f, prog) && proc.todo != []
    requires forall x: nat :: At(h, x) == At(WriteAt(g, Pos(proc.todo[0]), proc.todo[0].bytes), x)
    ensures OnCourse(h, Proc(proc.todo[1..], None), f, prog)
  {
    var g' := WriteAt(g, Pos(proc.todo[0]), proc.todo[0].bytes);
    forall x: nat | Writes(prog, x) ensures At(Solo(h, proc.todo[1..]), x) == At(Solo(f, prog), x) {
      SoloLocal(g', h, proc.todo[1..], x);
    }
  }

  lemma StepKeeps(s: State, t: State, p: nat, f: seq<byte>, progs: seq<seq<Patch>>)
    requires Inv(s, f, progs) && AllContained(progs) && Independent(progs) && Step(s, t, p)
    ensures Inv(t, f, progs)
  {
    hide OnCourse, WriteAt, Slice, Overlay;
    var proc := s.procs[p];
    var w := proc.todo[0];
    Held(s.f, proc, f, progs[p]);
    assert w in progs[p];
    if proc.held.Some? {
      StoreIsWrite(s.f, w);
      MoverStays(s.f, t.f, proc, f, progs[p]);
      forall q | 0 <= q < |progs| && q != p ensures OnCourse(t.f, t.procs[q], f, progs[q]) {
        OthersStay(s.f, t.f, s.procs[q], f, progs[q], w);
      }
      forall x: nat | forall q | 0 <= q < |progs| :: !Writes(progs[q], x) ensures At(t.f, x) == At(f, x) {
        assert !Writes(progs[p], x);
        assert !Data(w, x);
      }
    } else {
      Loaded(s.f, proc, f, progs[p]);
    }
  }

  lemma Held(g: seq<byte>, proc: Proc, f: seq<byte>, prog: seq<Patch>)
    requires OnCourse(g, proc, f, prog) && proc.todo != []
    ensures proc.todo[0] in prog
    ensures proc.held.Some? ==> proc.held.value == Slice(g, proc.todo[0].base, proc.todo[0].span)
  {
  }

  lemma Loaded(g: seq<byte>, proc: Proc, f: seq<byte>, prog: seq<Patch>)
    requires OnCourse(g, proc, f, prog) && proc.todo != []
    ensures OnCourse(g, Proc(proc.todo, Some(Slice(g, proc.todo[0].base, proc.todo[0].span))), f, prog)
  {
  }

  lemma StartsOnCourse(f: seq<byte>, progs: seq<seq<Patch>>)
    ensures Inv(Start(f, progs), f, progs)
  {
  }

  lemma {:induction false} RunKeeps(run: seq<State>, f: seq<byte>, progs: seq<seq<Patch>>)
    requires Runs(run) && run[0] == Start(f, progs) && AllContained(progs) && Independent(progs)
    ensures Inv(run[|run| - 1], f, progs)
  {
    hide Inv, Independent, AllContained, Step;
    var n := |run| - 1;
    if n == 0 {
      StartsOnCourse(f, progs);
    } else {
      assert Moves(run[n - 1], run[n]);
      RunKeeps(run[..n], f, progs);
      var p: nat :| Step(run[n - 1], run[n], p);
      StepKeeps(run[n - 1], run[n], p, f, progs);
    }
  }

  /** Each byte ends as the one process that writes it would have left it. */
  lemma {:induction false} InTurnAt(f: seq<byte>, progs: seq<seq<Patch>>, p: nat, x: nat)
    requires forall q | 0 <= q < |progs| && q != p :: !Writes(progs[q], x)
    ensures At(InTurn(f, progs), x) == At(if p < |progs| then Solo(f, progs[p]) else f, x)
    decreases |progs|
  {
    if progs != [] {
      var g := Solo(f, progs[0]);
      assert forall q | 0 <= q < |progs[1..]| :: progs[1..][q] == progs[q + 1];
      if p == 0 {
        InTurnAt(g, progs[1..], |progs|, x);
      } else {
        InTurnAt(g, progs[1..], p - 1, x);
        SoloElsewhere(f, progs[0], x);
        if p < |progs| {
          SoloLocal(f, g, progs[p], x);
        }
      }
    }
  }

  /** Every interleaving ends with the file that running the processes one after another
      gives. */
  lemma AnyInterleaving(run: seq<State>, f: seq<byte>, progs: seq<seq<Patch>>, x: nat)
    requires Complete(run, f, progs) && AllContained(progs) && Independent(progs)
    ensures At(run[|run| - 1].f, x) == At(InTurn(f, progs), x)
  {
    var s := run[|run| - 1];
    RunKeeps(run, f, progs);
    if exists p :: 0 <= p < |progs| && Writes(progs[p], x) {
      var p :| 0 <= p < |progs| && Writes(progs[p], x);
      OneWriter(progs, p, x);
      InTurnAt(f, progs, p, x);
      assert OnCourse(s.f, s.procs[p], f, progs[p]);
    } else {
      InTurnAt(f, progs, |progs|, x);
    }
  }

  lemma OneWriter(progs: seq<seq<Patch>>, p: nat, x: nat)
    requires AllContained(progs) && Independent(progs) && p < |progs| && Writes(progs[p], x)
    ensures forall q | 0 <= q < |progs| && q != p :: !Writes(progs[q], x)
  {
    var w :| w in progs[p] && Data(w, x);
    forall q, v | 0 <= q < |progs| && q != p && v in progs[q] ensures !Data(v, x) {
      assert Contained(v);
      assert !(Hull(v, x) && Data(w, x));
    }
  }

  // --------------------------------------------------------- every interleaving

  /** What a process holds is as long as the window it is for. */
  ghost predicate Sound(s: State) {
    forall p | 0 <= p < |s.procs| :: SoundProc(s.procs[p])
  }

  ghost predicate SoundProc(proc: Proc) {
    && (forall w | w in proc.todo :: Contained(w))
    && (proc.held.Some? ==> proc.todo != [] && |proc.held.value| == proc.todo[0].span)
  }

  /** A process with a transfer to make can always go on with it, whatever the others are doing: it
      reads the window, and with the window in hand it writes it back whole. */
  lemma CanStep(s: State, p: nat) returns (t: State)
    requires Sound(s) && p < |s.procs| && s.procs[p].todo != []
    ensures Step(s, t, p) && Sound(t) && |t.procs| == |s.procs|
    ensures var w := s.procs[p].todo[0];
            if s.procs[p].held.None? then
              t == s.(procs := s.procs[p := Proc(s.procs[p].todo, Some(Slice(s.f, w.base, w.span)))])
            else
              && w.skew + |w.bytes| <= |s.procs[p].held.value|
              && t == State(WriteAt(s.f, w.base, Overlay(s.procs[p].held.value, w.skew, w.bytes)),
                            s.procs[p := Proc(s.procs[p].todo[1..], None)])
  {
    hide WriteAt, Slice, Overlay;
    assert SoundProc(s.procs[p]);
    assert Contained(s.procs[p].todo[0]);
    t := if s.procs[p].held.None? then Load(s, p) else Save(s, p);
  }

  /** The steps a process has left: a read and a write for each transfer. */
  function StepsLeft(proc: Proc): int {
    2 * |proc.todo| - if proc.held.Some? then 1 else 0
  }

  function Turns(who: seq<nat>, p: nat): nat {
    if who == [] then 0 else Turns(who[..|who| - 1], p) + if who[|who| - 1] == p then 1 else 0
  }

  lemma {:induction false} TurnsPrefix(who: seq<nat>, n: nat, p: nat)
    requires n <= |who|
    ensures Turns(who[..n], p) <= Turns(who, p)
    decreases |who|
  {
    if n < |who| {
      TurnsPrefix(who[..|who| - 1], n, p);
      assert who[..|who| - 1][..n] == who[..n];
    } else {
      assert who[..n] == who;
    }
  }

  /** After the turns taken so far. */
  ghost predicate After(s: State, progs: seq<seq<Patch>>, who: seq<nat>) {
    && Sound(s) && |s.procs| == |progs|
    && forall p | 0 <= p < |progs| :: StepsLeft(s.procs[p]) == 2 * |progs[p]| - Turns(who, p)
  }

  /** Every order in which the processes could take their turns is a run of theirs: nothing makes one
      wait for another. */
  lemma {:induction false} AnySchedule(f: seq<byte>, progs: seq<seq<Patch>>, who: seq<nat>, n: nat)
    returns (run: seq<State>)
    requires AllContained(progs) && n <= |who| && forall i | 0 <= i < |who| :: who[i] < |progs|
    requires forall p: nat | p < |progs| :: Turns(who, p) == 2 * |progs[p]|
    ensures |run| == n + 1 && run[0] == Start(f, progs) && After(run[n], progs, who[..n])
    ensures forall i | 0 <= i < n :: Step(run[i], run[i + 1], who[i])
    ensures n == |who| ==> Complete(run, f, progs)
    decreases n
  {
    hide Step, After, AllContained;
    if n == 0 {
      run := [Start(f, progs)];
      StartAfter(f, progs);
    } else {
      run := AnySchedule(f, progs, who, n - 1);
      TurnsPrefix(who, n, who[n - 1]);
      assert who[..n][..n - 1] == who[..n - 1];
      var t := NextTurn(run[n - 1], progs, who[..n]);
      run := run + [t];
    }
    if n == |who| {
      assert who[..n] == who;
      forall i | 0 <= i < |run| - 1 ensures Moves(run[i], run[i + 1]) {
        assert Step(run[i], run[i + 1], who[i]);
      }
      AllFinished(run[n], progs, who);
    }
  }

  lemma StartAfter(f: seq<byte>, progs: seq<seq<Patch>>)
    requires AllContained(progs)
    ensures After(Start(f, progs), progs, [])
  {
  }

  lemma NextTurn(s: State, progs: seq<seq<Patch>>, who: seq<nat>) returns (t: State)
    requires who != [] && After(s, progs, who[..|who| - 1]) && who[|who| - 1] < |progs|
    requires Turns(who, who[|who| - 1]) <= 2 * |progs[who[|who| - 1]]|
    ensures Step(s, t, who[|who| - 1]) && After(t, progs, who)
  {
    hide Step, WriteAt, Slice, Overlay, Sound;
    var p := who[|who| - 1];
    assert StepsLeft(s.procs[p]) >= 1;
    t := CanStep(s, p);
  }

  lemma AllFinished(s: State, progs: seq<seq<Patch>>, who: seq<nat>)
    requires After(s, progs, who) && forall p: nat | p < |progs| :: Turns(who, p) == 2 * |progs[p]|
    ensures Finished(s)
  {
    forall p | 0 <= p < |s.procs| ensures s.procs[p].todo == [] {
      assert StepsLeft(s.procs[p]) == 0 && SoundProc(s.procs[p]);
    }
  }

  // -------------------------------------------------------------- reading back

  /** What every process still has to do is an end of its list. */
  ghost predicate Ends(s: State, progs: seq<seq<Patch>>) {
    && |s.procs| == |progs|
    && forall p | 0 <= p < |progs| :: EndOf(s.procs[p].todo, progs[p])
  }

  ghost predicate EndOf(todo: seq<Patch>, prog: seq<Patch>) {
    |todo| <= |prog| && todo == prog[|prog| - |todo|..]
  }

  lemma EndStep(todo: seq<Patch>, prog: seq<Patch>)
    requires EndOf(todo, prog) && todo != []
    ensures EndOf(todo[1..], prog) && todo[0] == prog[|prog| - |todo|]
  {
  }

  lemma {:induction false} RunEnds(run: seq<State>, f: seq<byte>, progs: seq<seq<Patch>>)
    requires Runs(run) && run[0] == Start(f, progs)
    ensures Ends(run[|run| - 1], progs)
  {
    hide EndOf, Slice, WriteAt, Overlay;
    var k := |run| - 1;
    if k == 0 {
      assert forall p | 0 <= p < |progs| :: EndOf(progs[p], progs[p]) by { WholeEnds(progs); }
    } else {
      assert Moves(run[k - 1], run[k]);
      RunEnds(run[..k], f, progs);
      var q: nat :| Step(run[k - 1], run[k], q);
      EndStep(run[k - 1].procs[q].todo, progs[q]);
    }
  }

  lemma WholeEnds(progs: seq<seq<Patch>>)
    ensures forall p | 0 <= p < |progs| :: EndOf(progs[p], progs[p])
  {
  }

  /** How many of its transfers process `p` has carried out. */
  function Behind(s: State, progs: seq<seq<Patch>>, p: nat): nat
    requires p < |progs| && |s.procs| == |progs| && |s.procs[p].todo| <= |progs[p]|
  {
    |progs[p]| - |s.procs[p].todo|
  }

  ghost predicate Mine(progs: seq<seq<Patch>>, p: nat, x: nat) {
    p < |progs| && forall q | 0 <= q < |progs| && q != p :: !Writes(progs[q], x)
  }

  lemma {:induction false} SoloAppend(f: seq<byte>, a: seq<Patch>, b: seq<Patch>)
    ensures Solo(f, a + b) == Solo(Solo(f, a), b)
    decreases |a|
  {
    if a == [] {
      assert a + b == b;
    } else {
      assert (a + b)[1..] == a[1..] + b;
      SoloAppend(WriteAt(f, Pos(a[0]), a[0].bytes), a[1..], b);
    }
  }

  /** Whatever the others do, a process reads its own bytes as it would alone, at any point of any run:
      what it wrote last, or what was there at the start. */
  lemma {:induction false} ReadsOwn(run: seq<State>, f: seq<byte>, progs: seq<seq<Patch>>, p: nat, x: nat)
    requires Runs(run) && run[0] == Start(f, progs) && AllContained(progs) && Independent(progs)
    requires p < |progs| && Mine(progs, p, x)
    ensures var s := run[|run| - 1];
            Ends(s, progs) && At(s.f, x) == At(Solo(f, progs[p][..Behind(s, progs, p)]), x)
    decreases |run|
  {
    hide Independent, AllContained, Inv, Mine, Step;
    var k := |run| - 1;
    RunEnds(run, f, progs);
    if k == 0 {
      NothingBehind(f, progs, p);
    } else {
      var before := run[..k];
      assert Moves(run[k - 1], run[k]);
      RunKeeps(before, f, progs);
      ReadsOwn(before, f, progs, p, x);
      var q: nat :| Step(run[k - 1], run[k], q);
      StepReads(run[k - 1], run[k], q, f, progs, p, x);
    }
  }

  lemma NothingBehind(f: seq<byte>, progs: seq<seq<Patch>>, p: nat)
    requires p < |progs|
    ensures Solo(f, progs[p][..Behind(Start(f, progs), progs, p)]) == f
  {
    assert progs[p][..0] == [];
  }

  lemma OneMore(f: seq<byte>, g: seq<byte>, prog: seq<Patch>, n: nat, x: nat)
    requires n < |prog| && At(g, x) == At(Solo(f, prog[..n]), x)
    ensures At(WriteAt(g, Pos(prog[n]), prog[n].bytes), x) == At(Solo(f, prog[..n + 1]), x)
  {
    hide WriteAt;
    assert prog[..n + 1] == prog[..n] + [prog[n]];
    SoloAppend(f, prog[..n], [prog[n]]);
    assert Solo(Solo(f, prog[..n]), [prog[n]]) == Solo(WriteAt(Solo(f, prog[..n]), Pos(prog[n]), prog[n].bytes), []);
  }

  /** One step, as process `p` sees the byte `x`. */
  lemma StepReads(s: State, t: State, q: nat, f: seq<byte>, progs: seq<seq<Patch>>, p: nat, x: nat)
    requires Inv(s, f, progs) && AllContained(progs) && Step(s, t, q) && Mine(progs, p, x)
    requires Ends(s, progs) && Ends(t, progs)
    requires At(s.f, x) == At(Solo(f, progs[p][..Behind(s, progs, p)]), x)
    ensures At(t.f, x) == At(Solo(f, progs[p][..Behind(t, progs, p)]), x)
  {
    hide WriteAt, Slice, Overlay, Solo, EndOf;
    var proc := s.procs[q];
    var w := proc.todo[0];
    assert OnCourse(s.f, proc, f, progs[q]);
    assert w in progs[q];
    if proc.held.Some? {
      StoreIsWrite(s.f, w);
      if q == p {
        EndStep(proc.todo, progs[p]);
        OneMore(f, s.f, progs[p], Behind(s, progs, p), x);
      } else {
        assert !Writes(progs[q], x);
        assert !Data(w, x);
      }
    }
  }

  // ------------------------------------------------------------ lost updates

  ghost predicate Leads(run: seq<State>, s: State, t: State) {
    run != [] && Runs(run) && run[0] == s && run[|run| - 1] == t
  }

  ghost predicate Reaches(s: State, t: State) {
    exists run :: Leads(run, s, t)
  }

  lemma ReachesSelf(s: State)
    ensures Reaches(s, s)
  {
    assert Leads([s], s, s);
  }

  lemma ReachesMore(s: State, t: State, u: State)
    requires Reaches(s, t) && Moves(t, u)
    ensures Reaches(s, u)
  {
    hide Moves;
    var run :| Leads(run, s, t);
    var all := run + [u];
    forall i | 0 <= i < |all| - 1 ensures Moves(all[i], all[i + 1]) {
    }
    assert Leads(all, s, u);
  }

  /** One process carries out its next `n` transfers while the others wait. */
  lemma {:induction false} SoloReaches(s0: State, s: State, p: nat, n: nat) returns (t: State)
    requires Reaches(s0, s)
    requires p < |s.procs| && s.procs[p].held.None? && n <= |s.procs[p].todo|
    requires forall w | w in s.procs[p].todo :: Contained(w)
    ensures Reaches(s0, t)
    ensures t.procs == s.procs[p := Proc(s.procs[p].todo[n..], None)]
    ensures forall x: nat :: At(t.f, x) == At(Solo(s.f, s.procs[p].todo[..n]), x)
    decreases n
  {
    hide WriteAt, Slice, Overlay, Reaches;
    var todo := s.procs[p].todo;
    if n == 0 {
      t := s;
      assert todo[..0] == [] && todo[0..] == todo;
      assert s.procs == s.procs[p := Proc(todo, None)];
    } else {
      var l := Load(s, p);
      var u := Save(l, p);
      assert Step(s, l, p) && Step(l, u, p);
      ReachesMore(s0, s, l);
      ReachesMore(s0, l, u);
      assert u.procs == s.procs[p := Proc(todo[1..], None)];
      t := SoloReaches(s0, u, p, n - 1);
      SoloStep(s.f, u.f, todo, n);
    }
  }

  lemma SoloStep(f: seq<byte>, g: seq<byte>, todo: seq<Patch>, n: nat)
    requires 0 < n <= |todo| && Contained(todo[0])
    requires var w := todo[0]; g == WriteAt(f, w.base, Overlay(Slice(f, w.base, w.span), w.skew, w.bytes))
    ensures forall x: nat :: At(Solo(g, todo[1..][..n - 1]), x) == At(Solo(f, todo[..n]), x)
  {
    hide WriteAt, Slice, Overlay, At;
    var h := WriteAt(f, Pos(todo[0]), todo[0].bytes);
    StoreIsWrite(f, todo[0]);
    assert todo[..n][1..] == todo[1..][..n - 1];
    forall x: nat ensures At(Solo(g, todo[1..][..n - 1]), x) == At(Solo(f, todo[..n]), x) {
      SoloLocal(g, h, todo[1..][..n - 1], x);
    }
  }

  /** Process `p` has read the window of its transfer `i` before `q` starts. */
  lemma LoadedEarly(f: seq<byte>, progs: seq<seq<Patch>>, p: nat, q: nat, i: nat, x: nat) returns (s: State)
    requires |progs| == 2 && p < 2 && q < 2 && p != q && AllContained(progs)
    requires i < |progs[p]| && !Writes(progs[p], x)
    ensures Reaches(Start(f, progs), s) && |s.procs| == 2 && At(s.f, x) == At(f, x)
    ensures s.procs[p] == Proc(progs[p][i..], Some(Slice(s.f, progs[p][i].base, progs[p][i].span)))
    ensures s.procs[q] == Proc(progs[q], None)
  {
    hide Slice, AllContained, Writes, Reaches;
    var s0, prog := Start(f, progs), progs[p];
    Containing(progs, p);
    ReachesSelf(s0);
    var s1 := SoloReaches(s0, s0, p, i);
    assert prog[0..i] == prog[..i];
    SoloMisses(f, prog, 0, i, x);
    s := Load(s1, p);
    assert Step(s1, s, p);
    ReachesMore(s0, s1, s);
  }

  /** Process `p` reads the window of its transfer `i`; `q` does all its work; `p` goes on. A byte
      that `p` does not mean to change but rewrites there ends as it was at the start. */
  lemma LosingRun(f: seq<byte>, progs: seq<seq<Patch>>, p: nat, q: nat, i: nat, x: nat) returns (run: seq<State>)
    requires |progs| == 2 && p < 2 && q < 2 && p != q && AllContained(progs)
    requires i < |progs[p]| && Hull(progs[p][i], x) && !Writes(progs[p], x)
    ensures Complete(run, f, progs) && At(run[|run| - 1].f, x) == At(f, x)
  {
    hide WriteAt, Slice, Overlay, AllContained, Writes, Reaches, Runs;
    var s0, prog, w := Start(f, progs), progs[p], progs[p][i];
    Containing(progs, p);
    Containing(progs, q);
    NotData(prog, i, x);
    var s2 := LoadedEarly(f, progs, p, q, i, x);
    var s3 := SoloReaches(s0, s2, q, |progs[q]|);
    assert s3.procs[p] == s2.procs[p];
    var s4 := Save(s3, p);
    assert Step(s3, s4, p);
    ReachesMore(s0, s3, s4);
    SavedOld(s2.f, s3.f, w, x);
    assert prog[i..][1..] == prog[i + 1..];
    assert s4.procs[p] == Proc(prog[i + 1..], None);
    var s5 := SoloReaches(s0, s4, p, |prog| - i - 1);
    assert prog[i + 1..][..|prog| - i - 1] == prog[i + 1..|prog|];
    SoloMisses(s4.f, prog, i + 1, |prog|, x);
    assert s5.procs[p].todo == [] && s5.procs[q].todo == [];
    run := ReachedRun(s0, s5);
  }

  lemma ReachedRun(s: State, t: State) returns (run: seq<State>)
    requires Reaches(s, t)
    ensures Leads(run, s, t)
  {
    run :| Leads(run, s, t);
  }

  lemma Containing(progs: seq<seq<Patch>>, p: nat)
    requires AllContained(progs) && p < |progs|
    ensures forall v | v in progs[p] :: Contained(v)
  {
  }

  lemma NotData(prog: seq<Patch>, i: nat, x: nat)
    requires i < |prog| && !Writes(prog, x)
    ensures !Data(prog[i], x)
  {
    assert prog[i] in prog;
  }

  lemma SoloMisses(f: seq<byte>, prog: seq<Patch>, i: nat, j: nat, x: nat)
    requires i <= j <= |prog| && !Writes(prog, x)
    ensures At(Solo(f, prog[i..j]), x) == At(f, x)
  {
    assert forall w | w in prog[i..j] :: w in prog;
    SoloElsewhere(f, prog[i..j], x);
  }

  /** What is saved outside the bytes of `w` is what was loaded. */
  lemma SavedOld(f: seq<byte>, g: seq<byte>, w: Patch, x: nat)
    requires Contained(w) && Hull(w, x) && !Data(w, x)
    ensures At(WriteAt(g, w.base, Overlay(Slice(f, w.base, w.span), w.skew, w.bytes)), x) == At(f, x)
  {
    hide WriteAt, Slice, Overlay;
  }
}
