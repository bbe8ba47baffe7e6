/** How far the heap can have grown: the end of the file, and what the resident records will still
    ask of it when they are spilled, stay within what the callers asked for. */
module Footprint {
  import opened Holes
  import opened Allocator
  import opened Records
  import opened Spec
  import opened Laws

  /** What spilling `k` may add to the file. */
  function Owe(recs: map<Key, Rec>, k: Key): nat {
    if k in recs then RoundUp(recs[k].size) else 0
  }

  function Owed(lru: seq<Key>, recs: map<Key, Rec>): nat {
    if lru == [] then 0 else Owe(recs, lru[0]) + Owed(lru[1..], recs)
  }

  lemma {:induction false} OwedSame(lru: seq<Key>, a: map<Key, Rec>, b: map<Key, Rec>)
    requires forall k | k in lru :: Owe(a, k) == Owe(b, k)
    ensures Owed(lru, a) == Owed(lru, b)
  {
    if lru != [] {
      OwedSame(lru[1..], a, b);
    }
  }

  lemma {:induction false} OwedWithout(lru: seq<Key>, recs: map<Key, Rec>, k: Key)
    requires Distinct(lru)
    ensures Owed(lru, recs) == Owed(Without(lru, k), recs) + if k in lru then Owe(recs, k) else 0
  {
    hide Distinct;
    if lru != [] {
      DistinctTail(lru);
      OwedWithout(lru[1..], recs, k);
      if lru[0] == k {
        WithoutDistinct(lru[1..], k);
      } else {
        var rest := Without(lru[1..], k);
        assert ([lru[0]] + rest)[1..] == rest;
      }
    }
  }

  /** Becoming the most recently used adds at most what the record itself owes. */
  lemma OwedTouch(lru: seq<Key>, recs: map<Key, Rec>, k: Key)
    requires Distinct(lru)
    ensures Owed([k] + Without(lru, k), recs) == Owed(lru, recs) + if k in lru then 0 else Owe(recs, k)
  {
    OwedWithout(lru, recs, k);
    var rest := Without(lru, k);
    assert ([k] + rest)[1..] == rest;
  }

  lemma OwedResize(lru: seq<Key>, recs: map<Key, Rec>, k: Key, n: nat)
    requires Distinct(lru) && k in recs
    ensures Owed(lru, recs[k := recs[k].(size := n)]) <= Owed(lru, recs) + RoundUp(n)
  {
    hide RoundUp;
    var after := recs[k := recs[k].(size := n)];
    OwedWithout(lru, recs, k);
    OwedWithout(lru, after, k);
    OwedSame(Without(lru, k), recs, after);
  }

  /** Sizes alone decide. */
  lemma OwedSizes(lru: seq<Key>, a: map<Key, Rec>, b: map<Key, Rec>)
    requires forall k | k in lru :: k in a && k in b && a[k].size == b[k].size
    ensures Owed(lru, a) == Owed(lru, b)
  {
    OwedSame(lru, a, b);
  }

  /** A resident record owes what its leaving settles. */
  lemma Leaving(recs: map<Key, Rec>, lru: seq<Key>, resident: nat, budget: nat, k: Key)
    requires Tier(recs, lru, resident, budget) && k in recs && recs[k].mem.Some?
    ensures Owed(lru, recs) == Owed(Without(lru, k), recs) + RoundUp(recs[k].size)
    ensures forall j | j in Without(lru, k) :: j in recs
  {
    OwedWithout(lru, recs, k);
  }

  lemma Departing(recs: map<Key, Rec>, lru: seq<Key>, resident: nat, budget: nat, k: Key)
    requires Tier(recs, lru, resident, budget)
    ensures Owed(Without(lru, k), recs - {k}) <= Owed(lru, recs)
  {
    OwedWithout(lru, recs, k);
    OwedSame(Without(lru, k), recs, recs - {k});
  }

  /** Touching a resident record changes nothing. */
  lemma Resides(recs: map<Key, Rec>, lru: seq<Key>, resident: nat, budget: nat, k: Key)
    requires Tier(recs, lru, resident, budget) && k in recs
    ensures forall j | j in lru :: j in recs
    ensures recs[k].mem.Some? ==> Owed([k] + Without(lru, k), recs) == Owed(lru, recs)
  {
    OwedTouch(lru, recs, k);
  }

  lemma RoundUpMono(a: nat, b: nat)
    requires a <= b
    ensures RoundUp(a) <= RoundUp(b)
  {
  }

  // ------------------------------------------------------------------- a run

  /** How far an operation reaches into its record. */
  function Reach(m: Keyed, op: Op): nat {
    match op
    case Reserve(_, n) => n
    case _ => High(Targets(m, op))
  }

  /** What an operation may add to the file, now or at a later spill. */
  function Cost(m: Keyed, op: Op): nat { 3 * RoundUp(Reach(m, op)) }

  function Costs(m: Keyed, ops: seq<Op>): nat
    decreases |ops|
  {
    if ops == [] then 0
    else
      var init := ops[..|ops| - 1];
      Costs(m, init) + Cost(Run(m, init, false).0, ops[|ops| - 1])
  }

  lemma {:induction false} RunKeys(m: Keyed, ops: seq<Op>)
    ensures |Run(m, ops, false).0| <= |m| + |ops|
    decreases |ops|
  {
    hide Apply;
    if ops != [] {
      var init := ops[..|ops| - 1];
      RunKeys(m, init);
      OneKey(Run(m, init, false).0, ops[|ops| - 1]);
    }
  }

  /** An operation adds at most its own key. */
  lemma OneKey(m: Keyed, op: Op)
    ensures |Apply(m, op, false).0| <= |m| + 1
  {
    var n := Apply(m, op, false).0;
    assert n.Keys <= m.Keys + {op.key};
    Subset(n.Keys, m.Keys + {op.key});
  }

  lemma {:induction false} Subset<T>(a: set<T>, b: set<T>)
    requires a <= b
    ensures |a| <= |b|
  {
    if a != {} {
      var x :| x in a;
      Subset(a - {x}, b - {x});
    }
  }

  /** An operation reaches no further than its record is long and it asks. */
  lemma ReachAsked(m: Keyed, op: Op, most: nat)
    requires NoLonger(m, most)
    ensures Reach(m, op) <= most + Asked(op)
  {
    if op.Write? {
      OneHigh(op.off, op.buf);
    } else if op.Append? {
      OneHigh(|Old(m, op.key)|, op.buf);
    } else if !op.Writev? {
      assert High([]) == 0;
    }
  }

  /** What a run may add to the file is bounded by what its operations ask for. */
  lemma {:induction false} CostsAsked(ops: seq<Op>, most: nat)
    requires AllAsked(ops) <= most
    ensures Costs(map[], ops) <= |ops| * (3 * (most + 4096))
    decreases |ops|
  {
    hide Apply, Reach, Asked, RoundUp;
    if ops != [] {
      var init, op := ops[..|ops| - 1], ops[|ops| - 1];
      CostsAsked(init, most);
      RunLengths(init, false);
      ReachAsked(Run(map[], init, false).0, op, AllAsked(init));
      assert Cost(Run(map[], init, false).0, op) <= 3 * (most + 4096);
      assert |ops| * (3 * (most + 4096)) == |init| * (3 * (most + 4096)) + 3 * (most + 4096);
    }
  }
}
