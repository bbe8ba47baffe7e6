/** The intrusive doubly linked list behind the memory tier's recency order
    (src/store.c:157-174). The store's `lru` is the sequence of keys this list spells out. */
module Lru {
  import opened Records

  class Node {
    const key: Key
    var prev: Node?
    var next: Node?

    constructor (key: Key)
      ensures this.key == key && prev == null && next == null
    {
      this.key, prev, next := key, null, null;
    }
  }

  function At(order: seq<Node>, i: int): Node? {
    if 0 <= i < |order| then order[i] else null
  }

  /** Both link fields of every node agree with its place in `order`. */
  ghost predicate Linked(order: seq<Node>)
    reads set x | x in order
  {
    forall i | 0 <= i < |order| :: order[i].prev == At(order, i - 1) && order[i].next == At(order, i + 1)
  }

  ghost predicate Different(order: seq<Node>) {
    forall i, j | 0 <= i < j < |order| :: order[i] != order[j]
  }

  ghost function Place(order: seq<Node>, r: Node): (k: nat)
    requires r in order
    ensures k < |order| && order[k] == r
  {
    var k: nat :| k < |order| && order[k] == r;
    k
  }

  /** `order` without `r`, if it is there. */
  ghost function Omit(order: seq<Node>, r: Node): seq<Node> {
    if order == [] then []
    else if order[0] == r then Omit(order[1..], r)
    else [order[0]] + Omit(order[1..], r)
  }

  datatype Move = Touched(r: Node) | Dropped(r: Node)

  /** The store's own bookkeeping of the same moves. */
  function Ordered(keys: seq<Key>, moves: seq<Move>): seq<Key> {
    if moves == [] then keys
    else
      var now, last := Ordered(keys, moves[..|moves| - 1]), moves[|moves| - 1];
      match last
      case Touched(r) => [r.key] + Without(now, r.key)
      case Dropped(r) => Without(now, r.key)
  }

  /** The list is drawn from `pool`, and what is off it has null links. */
  ghost predicate Pooled(order: seq<Node>, pool: set<Node>)
    reads pool
  {
    && (forall x | x in order :: x in pool)
    && (forall x | x in pool && x !in order :: x.prev == null && x.next == null)
  }

  ghost predicate OneKeyEach(pool: set<Node>) {
    forall x, y | x in pool && y in pool && x.key == y.key :: x == y
  }

  class List {
    /** Most recently used first. */
    var head: Node?
    var tail: Node?
    ghost var order: seq<Node>

    ghost predicate Valid()
      reads this, set x | x in order
    {
      && Different(order) && Linked(order)
      && head == At(order, 0) && tail == At(order, |order| - 1)
    }

    constructor ()
      ensures Valid() && order == []
    {
      head, tail, order := null, null, [];
    }

    /** The link writes of ls_lru_drop: the neighbours of `r` are joined, or an end of the list
        moves inwards. */
    method Bridge(r: Node)
      requires r.prev != r && r.next != r
      modifies this`head, this`tail, r, if r.prev == null then {} else {r.prev}, if r.next == null then {} else {r.next}
      ensures old(r.prev) != null && old(r.prev) != old(r.next) ==> old(r.prev).prev == old(r.prev.prev)
      ensures old(r.next) != null && old(r.prev) != old(r.next) ==> old(r.next).next == old(r.next.next)
      ensures r.prev == null && r.next == null
      ensures old(r.prev) != null ==> old(r.prev).next == old(r.next)
      ensures old(r.next) != null ==> old(r.next).prev == old(r.prev)
      ensures head == if old(r.prev) == null && old(head) == r then old(r.next) else old(head)
      ensures tail == if old(r.next) == null && old(tail) == r then old(r.prev) else old(tail)
    {
      if r.prev != null {
        r.prev.next := r.next;
      } else if head == r {
        head := r.next;
      }
      if r.next != null {
        r.next.prev := r.prev;
      } else if tail == r {
        tail := r.prev;
      }
      r.prev, r.next := null, null;
    }

    /** ls_lru_drop. A node that is on no list has null links, and is left alone. */
    method Drop(r: Node)
      requires Valid() && (r in order || (r.prev == null && r.next == null))
      modifies this, r, set x | x in order
      ensures Valid() && order == Omit(old(order), r)
      ensures r.prev == null && r.next == null && r !in order
      ensures forall x | x in order :: x in old(order)
    {
      hide Linked, Omit, Different, At;
      ghost var was, k := order, if r in order then Place(order, r) else 0;
      LinksOf(was);
      AtIn(was);
      if r in was {
        NeighboursOf(was, k);
      }
      Bridge(r);
      if r in was {
        OmitAt(was, k, r);
        DropLinks(was, k);
        DropEnds(was, k);
        order := was[..k] + was[k + 1..];
      } else {
        OmitAbsent(was, r);
        LinkedAgain(was);
      }
    }

    /** ls_lru_touch: move or add to the front. */
    method Touch(r: Node)
      requires Valid() && (r in order || (r.prev == null && r.next == null))
      modifies this, r, set x | x in order
      ensures Valid() && order == [r] + Omit(old(order), r)
    {
      hide Linked, Omit, Different;
      if head == r {
        FrontStays(order);
        return;
      }
      Drop(r);
      PushFront(r);
    }

    /** Hook in a node that is on no list, before the first. */
    method PushFront(r: Node)
      requires Valid() && r !in order && r.prev == null
      modifies this, r, set x | x in order
      ensures Valid() && order == [r] + old(order)
    {
      hide Linked, Different, At;
      ghost var was := order;
      LinksOf(was);
      AtIn(was);
      Ends(was, r);
      r.next := head;
      if head != null {
        head.prev := r;
      }
      head := r;
      if tail == null {
        tail := r;
      }
      order := [r] + was;
      TouchLinks(was, r);
      DifferentFront(was, r);
    }

    /** Any run of touches and drops keeps both links right and spells out the order the store's
        sequence operations give. `pool` are the records it may name, on the list or off it. */
    method Run(moves: seq<Move>, ghost pool: set<Node>)
      requires Valid() && Pooled(order, pool) && OneKeyEach(pool)
      requires forall i | 0 <= i < |moves| :: moves[i].r in pool
      modifies this, pool
      ensures Valid() && Pooled(order, pool) && Keys(order) == Ordered(old(Keys(order)), moves)
    {
      hide Linked, Different, Omit, Without, Valid, Keys;
      var i: nat := 0;
      while i < |moves|
        invariant i <= |moves| && Valid() && Pooled(order, pool)
        invariant Keys(order) == Ordered(old(Keys(order)), moves[..i])
      {
        assert moves[..i + 1][..i] == moves[..i];
        ghost var was, r := order, moves[i].r;
        OmitKeys(was, r);
        OmitIn(was, r);
        match moves[i] {
          case Touched(x) =>
            Touch(x);
            KeysFront(r, Omit(was, r));
          case Dropped(x) =>
            Drop(x);
        }
        i := i + 1;
      }
      assert moves[..|moves|] == moves;
    }

    /** The inner loop of ls_evict_to: the coldest node that is not pinned, or null when all
        are (src/store.c:212-214). */
    method Victim(pinned: set<Node>) returns (v: Node?)
      requires Valid()
      ensures v == null ==> forall x | x in order :: x in pinned
      ensures v != null ==> exists i :: 0 <= i < |order| && order[i] == v && v !in pinned
                                        && forall j | i < j < |order| :: order[j] in pinned
    {
      v := tail;
      ghost var n := |order|;
      while v != null && v in pinned
        invariant 0 <= n <= |order| && v == At(order, n - 1)
        invariant forall j | n <= j < |order| :: order[j] in pinned
        decreases n
      {
        v := v.prev;
        n := n - 1;
      }
      assert v != null ==> order[n - 1] == v;
    }
  }

  lemma LinksOf(order: seq<Node>)
    requires Linked(order)
    ensures forall k | 0 <= k < |order| :: order[k].prev == At(order, k - 1) && order[k].next == At(order, k + 1)
  {
  }

  lemma AtIn(order: seq<Node>)
    ensures forall i :: At(order, i) == null || At(order, i) in order
  {
  }

  lemma LinkedAgain(order: seq<Node>)
    requires forall k | 0 <= k < |order| :: order[k].prev == At(order, k - 1) && order[k].next == At(order, k + 1)
    ensures Linked(order)
  {
  }

  lemma NeighboursOf(order: seq<Node>, k: nat)
    requires k < |order| && Different(order) && Linked(order)
    ensures order[k].prev == At(order, k - 1) && order[k].next == At(order, k + 1)
    ensures order[k].prev != order[k] && order[k].next != order[k]
    ensures order[k].prev != null ==> order[k].prev != order[k].next
    ensures (order[k].prev == null <==> k == 0) && (order[k].next == null <==> k == |order| - 1)
    ensures order[k] == At(order, k)
    ensures order[k] == At(order, 0) <==> k == 0
    ensures order[k] == At(order, |order| - 1) <==> k == |order| - 1
    ensures forall j | 0 <= j < |order| ::
              (order[j] == order[k].prev <==> j == k - 1) && (order[j] == order[k].next <==> j == k + 1)
    ensures forall j | 0 <= j < |order| :: order[j] == order[k] <==> j == k
  {
  }

  lemma {:induction false} OmitAt(order: seq<Node>, k: nat, r: Node)
    requires k < |order| && order[k] == r && Different(order)
    ensures Omit(order, r) == order[..k] + order[k + 1..] && r !in Omit(order, r) && Different(Omit(order, r))
  {
    var rest := order[..k] + order[k + 1..];
    assert forall i | 0 <= i < |rest| :: rest[i] == order[if i < k then i else i + 1];
    if k == 0 {
      OmitAbsent(order[1..], r);
    } else {
      OmitAt(order[1..], k - 1, r);
      assert [order[0]] + (order[1..][..k - 1] + order[1..][k..]) == rest;
    }
  }

  lemma {:induction false} OmitAbsent(order: seq<Node>, r: Node)
    requires r !in order
    ensures Omit(order, r) == order
  {
    if order != [] {
      OmitAbsent(order[1..], r);
    }
  }

  lemma DropEnds(was: seq<Node>, k: nat)
    requires k < |was|
    ensures var rest := was[..k] + was[k + 1..];
            && At(rest, 0) == (if k == 0 then At(was, k + 1) else At(was, 0))
            && At(rest, |rest| - 1) == (if k == |was| - 1 then At(was, k - 1) else At(was, |was| - 1))
  {
  }

  /** Bridging over node `k` leaves the rest linked. */
  lemma DropLinks(was: seq<Node>, k: nat)
    requires k < |was|
    requires forall j | 0 <= j < |was| && j != k ::
               && (was[j].prev == if j == k + 1 then At(was, k - 1) else At(was, j - 1))
               && (was[j].next == if j == k - 1 then At(was, k + 1) else At(was, j + 1))
    ensures Linked(was[..k] + was[k + 1..])
  {
    var order := was[..k] + was[k + 1..];
    forall i | 0 <= i < |order|
      ensures order[i].prev == At(order, i - 1) && order[i].next == At(order, i + 1)
    {
      var j := if i < k then i else i + 1;
      assert order[i] == was[j];
      assert At(order, i - 1) == At(was, if i <= k then i - 1 else i);
      assert At(order, i + 1) == At(was, if i + 1 < k then i + 1 else i + 2);
    }
  }

  /** Hooking a node in before the first leaves everything linked. */
  lemma TouchLinks(was: seq<Node>, r: Node)
    requires r.prev == null && r.next == At(was, 0)
    requires forall j | 0 <= j < |was| ::
               was[j].next == At(was, j + 1) && was[j].prev == if j == 0 then r else At(was, j - 1)
    ensures Linked([r] + was)
  {
    var order := [r] + was;
    forall i | 0 <= i < |order|
      ensures order[i].prev == At(order, i - 1) && order[i].next == At(order, i + 1)
    {
      assert i > 0 ==> order[i] == was[i - 1];
    }
  }

  lemma DifferentFront(was: seq<Node>, r: Node)
    requires Different(was) && r !in was
    ensures Different([r] + was)
  {
  }

  lemma Ends(was: seq<Node>, r: Node)
    requires Different(was)
    ensures At([r] + was, 0) == r && At([r] + was, |was|) == if was == [] then r else At(was, |was| - 1)
    ensures (At(was, 0) == null <==> was == []) && (At(was, |was| - 1) == null <==> was == [])
    ensures forall j | 0 <= j < |was| :: was[j] == At(was, 0) <==> j == 0
  {
  }

  lemma FrontStays(order: seq<Node>)
    requires Different(order) && order != []
    ensures order == [order[0]] + Omit(order, order[0])
  {
    OmitAt(order, 0, order[0]);
  }

  // --------------------------------------------------------- the order of keys

  function Keys(order: seq<Node>): (r: seq<Key>) {
    if order == [] then [] else [order[0].key] + Keys(order[1..])
  }

  /** Dropping a node drops its key, and no other, from the recency order the store keeps. */
  lemma {:induction false} OmitKeys(order: seq<Node>, r: Node)
    requires forall x | x in order && x.key == r.key :: x == r
    ensures Keys(Omit(order, r)) == Without(Keys(order), r.key)
  {
    if order != [] {
      OmitKeys(order[1..], r);
      assert Keys(order)[1..] == Keys(order[1..]);
      assert order[0] in order;
    }
  }

  lemma {:induction false} OmitIn(order: seq<Node>, r: Node)
    ensures forall x | x in Omit(order, r) :: x in order
    ensures forall x | x in order && x != r :: x in Omit(order, r)
  {
    if order != [] {
      OmitIn(order[1..], r);
      assert forall x | x in order :: x == order[0] || x in order[1..];
    }
  }

  lemma KeysFront(r: Node, rest: seq<Node>)
    ensures Keys([r] + rest) == [r.key] + Keys(rest)
  {
    assert ([r] + rest)[1..] == rest;
  }
}
