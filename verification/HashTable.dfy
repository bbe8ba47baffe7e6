/** The in-memory table of contents: a chained hash table that doubles (src/toc.c:27-83). The
    hash is arbitrary; masking with a power of two minus one is the remainder. */
module HashTable {
  import opened Records

  class Node {
    const key: Key
    var hnext: Node?

    constructor (key: Key)
      ensures this.key == key && hnext == null
    {
      this.key, hnext := key, null;
    }
  }

  function Bucket(hash: Key -> nat, k: Key, n: nat): (b: nat)
    requires n > 0
    ensures b < n
  {
    hash(k) % n
  }

  /** The bucket is what the hash leaves over the size of the table. */
  lemma BucketLaw(hash: Key -> nat, k: Key, n: nat) returns (q: nat)
    requires n > 0
    ensures hash(k) == q * n + Bucket(hash, k, n)
  {
    q := hash(k) / n;
  }

  function Head(c: seq<Node>): Node? {
    if c == [] then null else c[0]
  }

  /** The nodes of `c` are linked in this order, and the last one ends the chain. */
  ghost predicate Linked(c: seq<Node>)
    reads c
  {
    forall i | 0 <= i < |c| :: c[i].hnext == Head(c[i + 1..])
  }

  /** Every node is in the chain its key hashes to, once. */
  ghost predicate Placed(hash: Key -> nat, cs: seq<seq<Node>>) {
    && |cs| > 0
    && (forall b, i | 0 <= b < |cs| && 0 <= i < |cs[b]| :: Bucket(hash, cs[b][i].key, |cs|) == b)
    && (forall b, i, j | 0 <= b < |cs| && 0 <= i < j < |cs[b]| :: cs[b][i] != cs[b][j])
  }

  /** The chains hold exactly the nodes of `m`. */
  ghost predicate Holds(hash: Key -> nat, cs: seq<seq<Node>>, m: set<Node>)
    requires |cs| > 0
  {
    && (forall b, x | 0 <= b < |cs| && x in cs[b] :: x in m)
    && (forall x | x in m :: x in cs[Bucket(hash, x.key, |cs|)])
  }

  datatype Use = Ask(key: Key) | Add(key: Key) | Remove(key: Key)

  ghost predicate OnePerKey(m: set<Node>) {
    forall x, y | x in m && y in m && x.key == y.key :: x == y
  }

  function Keys(m: set<Node>): set<Key> { set x | x in m :: x.key }

  /** What a finite set of keys answers: was the key there before each use. */
  function Agreed(ks: set<Key>, uses: seq<Use>): (set<Key>, seq<bool>)
    decreases |uses|
  {
    if uses == [] then (ks, [])
    else
      var last := uses[|uses| - 1];
      var (now, answers) := Agreed(ks, uses[..|uses| - 1]);
      (After(now, last), answers + [last.key in now])
  }

  function After(ks: set<Key>, use: Use): set<Key> {
    match use
    case Ask(_) => ks
    case Add(k) => ks + {k}
    case Remove(k) => ks - {k}
  }

  ghost predicate NotRemoved(uses: seq<Use>, from: nat, to: nat, k: Key) {
    forall i | from <= i < to && i < |uses| :: uses[i] != Remove(k)
  }

  /** Before use `n`, key `k` was there from the start, if `first`, or was added, and has not been
      removed since. */
  ghost predicate Present(uses: seq<Use>, n: nat, k: Key, first: bool) {
    || (first && NotRemoved(uses, 0, n, k))
    || exists j: nat | j < n && j < |uses| :: uses[j] == Add(k) && NotRemoved(uses, j + 1, n, k)
  }

  lemma {:induction false} AgreedKeys(ks: set<Key>, uses: seq<Use>, k: Key)
    ensures k in Agreed(ks, uses).0 <==> Present(uses, |uses|, k, k in ks)
    ensures |Agreed(ks, uses).1| == |uses|
    decreases |uses|
  {
    hide Present;
    if uses == [] {
      PresentNone(uses, k, k in ks);
    } else {
      var n := |uses| - 1;
      AgreedKeys(ks, uses[..n], k);
      PresentIn(uses, n, k, k in ks);
      PresentNext(uses, n, k, k in ks);
    }
  }

  lemma PresentNone(uses: seq<Use>, k: Key, first: bool)
    ensures Present(uses, 0, k, first) <==> first
  {
  }

  lemma PresentIn(uses: seq<Use>, n: nat, k: Key, first: bool)
    requires n <= |uses|
    ensures Present(uses[..n], n, k, first) <==> Present(uses, n, k, first)
  {
    hide NotRemoved;
    forall j: nat ensures NotRemoved(uses[..n], j, n, k) <==> NotRemoved(uses, j, n, k) {
      NotRemovedIn(uses, j, n, k);
    }
    if j: nat :| j < n && uses[j] == Add(k) && NotRemoved(uses, j + 1, n, k) {
      assert uses[..n][j] == Add(k);
    }
  }

  lemma NotRemovedIn(uses: seq<Use>, j: nat, n: nat, k: Key)
    requires n <= |uses|
    ensures NotRemoved(uses[..n], j, n, k) <==> NotRemoved(uses, j, n, k)
  {
    assert forall i | 0 <= i < n :: uses[..n][i] == uses[i];
  }

  lemma NotRemovedNext(uses: seq<Use>, j: nat, n: nat, k: Key)
    requires j <= n < |uses|
    ensures NotRemoved(uses, j, n + 1, k) <==> NotRemoved(uses, j, n, k) && uses[n] != Remove(k)
    ensures NotRemoved(uses, n + 1, n + 1, k)
  {
  }

  lemma PresentNext(uses: seq<Use>, n: nat, k: Key, first: bool)
    requires n < |uses|
    ensures Present(uses, n + 1, k, first) <==>
              uses[n] == Add(k) || (Present(uses, n, k, first) && uses[n] != Remove(k))
  {
    hide NotRemoved;
    forall j: nat | j <= n
      ensures NotRemoved(uses, j, n + 1, k) <==> NotRemoved(uses, j, n, k) && uses[n] != Remove(k)
    {
      NotRemovedNext(uses, j, n, k);
    }
    NotRemovedNext(uses, n, n, k);
    NotRemovedNext(uses, 0, n, k);
    if j: nat :| j < n && uses[j] == Add(k) && NotRemoved(uses, j + 1, n, k) && uses[n] != Remove(k) {
      assert NotRemoved(uses, j + 1, n + 1, k);
    }
    if j: nat :| j < n && uses[j] == Add(k) && NotRemoved(uses, j + 1, n + 1, k) {
      assert NotRemoved(uses, j + 1, n, k);
    }
    if uses[n] == Add(k) {
      assert NotRemoved(uses, n + 1, n + 1, k);
    }
  }

  /** Each answer is what the last use of that key before it says. */
  lemma {:induction false} AnswersLaw(ks: set<Key>, uses: seq<Use>, i: nat)
    requires i < |uses|
    ensures |Agreed(ks, uses).1| == |uses|
    ensures Agreed(ks, uses).1[i] <==> Present(uses, i, uses[i].key, uses[i].key in ks)
    decreases |uses|
  {
    hide Present;
    var n := |uses| - 1;
    var k := uses[i].key;
    AgreedKeys(ks, uses[..n], k);
    if i < n {
      AnswersLaw(ks, uses[..n], i);
      PresentIn(uses[..n], i, k, k in ks);
      assert uses[..n][..i] == uses[..i];
    }
    PresentIn(uses, i, k, k in ks);
    if i == n {
      assert uses[..n] == uses[..i];
    }
  }

  class Table {
    const hash: Key -> nat
    var tab: array<Node?>
    var nrec: nat
    ghost var chains: seq<seq<Node>>
    /** The records in the table. */
    ghost var nodes: set<Node>

    ghost predicate Valid()
      reads this, tab, nodes
    {
      && tab.Length == |chains| && 64 <= |chains|
      && Placed(hash, chains) && Holds(hash, chains, nodes)
      && (forall b | 0 <= b < |chains| :: tab[b] == Head(chains[b]) && Linked(chains[b]))
      && nrec == |nodes| && nrec <= |chains| - |chains| / 4
    }

    constructor (hash: Key -> nat)
      ensures Valid() && fresh(tab) && nodes == {} && this.hash == hash
    {
      this.hash := hash;
      tab := new Node?[64](_ => null);
      nrec, nodes := 0, {};
      chains := seq(64, _ => []);
    }

    /** ls_toc_find. */
    method Find(key: Key) returns (r: Node?)
      requires Valid()
      ensures r != null ==> r in nodes && r.key == key
      ensures r == null ==> forall x | x in nodes :: x.key != key
    {
      var b := Bucket(hash, key, tab.Length);
      r := tab[b];
      ghost var i: nat := 0;
      while r != null
        invariant i <= |chains[b]| && r == Head(chains[b][i..])
        invariant forall j | 0 <= j < i :: chains[b][j].key != key
        decreases |chains[b]| - i
      {
        assert r == chains[b][i] && r in chains[b];
        if r.key == key {
          return;
        }
        assert chains[b][i + 1..] == chains[b][i..][1..];
        r := r.hnext;
        i := i + 1;
      }
      assert i == |chains[b]|;
      forall x | x in nodes ensures x.key != key {
        assert x in chains[Bucket(hash, x.key, |chains|)];
      }
    }

    /** ls_toc_insert. It does not look the key up: its callers have, except for toc_load, where a
        table that lists a key twice gets two nodes. */
    method Insert(key: Key) returns (r: Node)
      requires Valid()
      modifies this, tab, nodes
      ensures Valid() && fresh(r) && r.key == key && nodes == old(nodes) + {r}
      ensures if old(nrec) + 1 > old(tab.Length) - old(tab.Length) / 4
              then fresh(tab) && tab.Length == 2 * old(tab.Length) else tab == old(tab)
    {
      hide Placed, Holds, Bucket, Linked;
      if nrec + 1 > tab.Length - tab.Length / 4 {
        Grow();
      }
      r := new Node(key);
      AddFront(r);
    }

    /** Link a node that is not in the table to the front of its chain. */
    method AddFront(r: Node)
      requires Valid() && nrec + 1 <= tab.Length - tab.Length / 4
      requires r !in nodes
      modifies this`nrec, this`chains, this`nodes, tab, r
      ensures Valid() && nodes == old(nodes) + {r}
    {
      hide Placed, Holds, Bucket;
      var b := Bucket(hash, r.key, tab.Length);
      NotIn(hash, chains, nodes, r);
      Fronted(hash, chains, nodes, r);
      r.hnext := tab[b];
      tab[b] := r;
      nrec := nrec + 1;
      assert forall c | 0 <= c < |chains| :: Linked(chains[c]);
      LinkedFront(r, chains[b]);
      chains := chains[b := [r] + chains[b]];
      nodes := nodes + {r};
    }

    /** ls_toc_unlink. */
    method Unlink(r: Node)
      requires Valid() && r in nodes
      modifies this`nrec, this`chains, this`nodes, tab, nodes
      ensures Valid() && nodes == old(nodes) - {r}
    {
      hide Placed, Holds, Bucket;
      var b := Bucket(hash, r.key, tab.Length);
      ghost var k := Position(hash, chains, nodes, r);
      ghost var c := chains[b];
      HoldsIn(hash, chains, nodes);
      BucketsApart(hash, chains, b);
      Removed(hash, chains, nodes, b, k);
      SpliceOut(tab, b, r, c, k);
      forall a | 0 <= a < |chains| && a != b ensures Linked(chains[a]) {
        assert forall i | 0 <= i < |chains[a]| :: chains[a][i] !in c && chains[a][i].hnext == old(chains[a][i].hnext);
      }
      nrec := nrec - 1;
      chains := chains[b := c[..k] + c[k + 1..]];
      nodes := nodes - {r};
    }

    /** Look a key up, then create or remove its record if asked to; `was` tells if it was there. */
    method Apply(use: Use) returns (was: bool)
      requires Valid() && OnePerKey(nodes)
      modifies this, tab, nodes
      ensures OnePerKey(nodes)
      ensures Valid() && was == (use.key in old(Keys(nodes))) && Keys(nodes) == After(old(Keys(nodes)), use)
      ensures tab == old(tab) || fresh(tab)
      ensures fresh(nodes - old(nodes))
    {
      hide Placed, Holds, Bucket, Linked;
      var r := Find(use.key);
      if use.Add? && r == null {
        r := Insert(use.key);
        return false;
      } else if use.Remove? && r != null {
        Unlink(r);
        return true;
      }
      return r != null;
    }

    /** Any run of lookups, get-or-create inserts and removals agrees with a set of keys. */
    method Run(uses: seq<Use>) returns (answers: seq<bool>)
      requires Valid() && OnePerKey(nodes)
      modifies this, tab, nodes
      ensures Valid() && OnePerKey(nodes) && (Keys(nodes), answers) == Agreed(old(Keys(nodes)), uses)
    {
      hide Placed, Holds, Bucket, Linked, After, Keys, Valid, OnePerKey;
      answers := [];
      var i: nat := 0;
      while i < |uses|
        invariant i <= |uses| && Valid() && OnePerKey(nodes)
        invariant tab == old(tab) || fresh(tab)
        invariant fresh(nodes - old(nodes))
        invariant (Keys(nodes), answers) == Agreed(old(Keys(nodes)), uses[..i])
      {
        assert uses[..i + 1][..i] == uses[..i];
        var was := Apply(uses[i]);
        answers := answers + [was];
        i := i + 1;
      }
      assert uses[..|uses|] == uses;
    }

    /** toc_grow: every node moves to the front of its chain in a table twice the size. */
    method Grow()
      requires Valid()
      modifies this`tab, this`chains, nodes
      ensures Valid() && fresh(tab) && tab.Length == 2 * old(tab.Length)
    {
      hide Placed, Holds, Bucket, Moved, Linked;
      var t := new Node?[2 * tab.Length](_ => null);
      ghost var nc: seq<seq<Node>> := seq(t.Length, _ => []);
      NothingMoved(hash, chains, nc, nodes);
      LinkedEmpty();
      HoldsIn(hash, chains, nodes);
      var i: nat := 0;
      while i < tab.Length
        invariant tab == old(tab) && chains == old(chains) && i <= tab.Length && tab[..] == old(tab[..])
        invariant Moved(hash, chains, nc, nodes, i, 0)
        invariant t.Length == |nc| && AllLinked(t[..], nc, 0, nodes)
        invariant AllLinked(tab[..], chains, i, nodes)
      {
        nc := MoveChain(t, i, nc);
        i := i + 1;
      }
      MovedAll(hash, chains, nc, nodes);
      tab, chains := t, nc;
    }

    /** The inner loop: move chain `i` node by node. */
    method MoveChain(t: array<Node?>, i: nat, ghost nc: seq<seq<Node>>) returns (ghost nc': seq<seq<Node>>)
      requires t != tab && 0 < t.Length == |nc| && i < tab.Length == |chains|
      requires Moved(hash, chains, nc, nodes, i, 0)
      requires AllLinked(t[..], nc, 0, nodes) && AllLinked(tab[..], chains, i, nodes)
      modifies t, nodes
      ensures |nc'| == |nc| && Moved(hash, chains, nc', nodes, i + 1, 0)
      ensures AllLinked(t[..], nc', 0, nodes) && AllLinked(tab[..], chains, i + 1, nodes)
    {
      hide Placed, Holds, Bucket, Moved, Linked;
      nc' := nc;
      var r := tab[i];
      ghost var k: nat := 0;
      assert chains[i][0..] == chains[i];
      while r != null
        invariant k <= |chains[i]| && r == Head(chains[i][k..]) && Linked(chains[i][k..])
        invariant |nc'| == |nc| && Moved(hash, chains, nc', nodes, i, k)
        invariant AllLinked(t[..], nc', 0, nodes) && AllLinked(tab[..], chains, i + 1, nodes)
        decreases |chains[i]| - k
      {
        assert r == chains[i][k];
        var nx := r.hnext;
        var b := Bucket(hash, r.key, t.Length);
        LinkedRest(chains[i], k);
        MovedNotIn(hash, chains, nc', nodes, i, k);
        MovedOne(hash, chains, nc', nodes, i, k);
        r.hnext := t[b];
        t[b] := r;
        assert forall c | 0 <= c < |nc'| :: Linked(nc'[c]);
        LinkedFront(r, nc'[b]);
        nc' := nc'[b := [r] + nc'[b]];
        k := k + 1;
        r := nx;
      }
      MovedBucket(hash, chains, nc', nodes, i, k);
    }
  }

  /** From bucket `from` on, the table's heads and links spell out the chains. */
  ghost predicate AllLinked(heads: seq<Node?>, cs: seq<seq<Node>>, from: nat, m: set<Node>)
    reads m
  {
    && |heads| == |cs|
    && (forall b, x | 0 <= b < |cs| && x in cs[b] :: x in m)
    && (forall b | from <= b < |cs| :: heads[b] == Head(cs[b]) && Linked(cs[b]))
  }

  lemma LinkedEmpty()
    ensures Linked([])
  {
  }

  lemma LinkedFront(r: Node, c: seq<Node>)
    requires Linked(c) && r.hnext == Head(c)
    ensures Linked([r] + c)
  {
    var d := [r] + c;
    forall i | 0 <= i < |d| ensures d[i].hnext == Head(d[i + 1..]) {
      assert d[i + 1..] == c[i..];
    }
  }

  /** Walk the chain to the link that names `r`, and make it skip `r` (src/toc.c:80-82). */
  method SpliceOut(tab: array<Node?>, b: nat, r: Node, ghost c: seq<Node>, ghost k: nat)
    requires b < tab.Length && tab[b] == Head(c) && Linked(c) && k < |c| && c[k] == r
    requires forall i, j | 0 <= i < j < |c| :: c[i] != c[j]
    modifies tab, set x | x in c
    ensures tab[b] == Head(c[..k] + c[k + 1..]) && Linked(c[..k] + c[k + 1..])
    ensures forall a | 0 <= a < tab.Length && a != b :: tab[a] == old(tab[a])
  {
    if tab[b] == r {
      LinkedRest(c, 0);
      assert k == 0 && c[0..] == c && c[..0] + c[1..] == c[1..];
      tab[b] := r.hnext;
    } else {
      var p: Node := tab[b];
      ghost var i: nat := 0;
      while p.hnext != r
        invariant i < k && p == c[i]
        decreases k - i
      {
        assert p.hnext == c[i + 1];
        p := p.hnext;
        i := i + 1;
      }
      assert c[i + 1] == c[k];
      SkipNode(p, r, c, k);
    }
  }

  method SkipNode(p: Node, r: Node, ghost c: seq<Node>, ghost k: nat)
    requires Linked(c) && 0 < k < |c| && c[k - 1] == p && c[k] == r
    requires forall i, j | 0 <= i < j < |c| :: c[i] != c[j]
    modifies p
    ensures Linked(c[..k] + c[k + 1..]) && Head(c[..k] + c[k + 1..]) == Head(c)
  {
    p.hnext := r.hnext;
    ghost var d := c[..k] + c[k + 1..];
    forall j | 0 <= j < |d| ensures d[j].hnext == Head(d[j + 1..]) {
      if j < k - 1 {
        assert d[j] == c[j] != p && old(c[j].hnext) == c[j + 1] == d[j + 1];
      } else if j == k - 1 {
        assert d[j + 1..] == c[k + 1..];
      } else {
        assert d[j] == c[j + 1] != p && d[j + 1..] == c[j + 2..];
      }
    }
  }

  lemma Position(hash: Key -> nat, cs: seq<seq<Node>>, m: set<Node>, r: Node) returns (k: nat)
    requires |cs| > 0 && Holds(hash, cs, m) && r in m
    ensures var c := cs[Bucket(hash, r.key, |cs|)]; k < |c| && c[k] == r
  {
    var c := cs[Bucket(hash, r.key, |cs|)];
    assert r in c;
    k :| k < |c| && c[k] == r;
  }

  /** Chains share no node, and none occurs twice in its own. */
  lemma BucketsApart(hash: Key -> nat, cs: seq<seq<Node>>, b: nat)
    requires Placed(hash, cs) && b < |cs|
    ensures forall i, j | 0 <= i < j < |cs[b]| :: cs[b][i] != cs[b][j]
    ensures forall a, x | 0 <= a < |cs| && a != b && x in cs[a] :: x !in cs[b]
  {
  }

  lemma Removed(hash: Key -> nat, cs: seq<seq<Node>>, m: set<Node>, b: nat, k: nat)
    requires Placed(hash, cs) && Holds(hash, cs, m) && b < |cs| && k < |cs[b]|
    ensures var ds := cs[b := cs[b][..k] + cs[b][k + 1..]];
            Placed(hash, ds) && Holds(hash, ds, m - {cs[b][k]})
    ensures cs[b][k] in m
  {
    hide Bucket;
    var r, c := cs[b][k], cs[b];
    var d := c[..k] + c[k + 1..];
    var ds := cs[b := d];
    assert r in c;
    assert forall j | 0 <= j < |d| :: d[j] == c[if j < k then j else j + 1];
    assert Placed(hash, ds);
    forall x | x in m - {r} ensures x in ds[Bucket(hash, x.key, |ds|)] {
      if Bucket(hash, x.key, |cs|) == b {
        var j :| 0 <= j < |c| && c[j] == x;
        assert d[if j < k then j else j - 1] == x;
      }
    }
    forall a, x | 0 <= a < |ds| && x in ds[a] ensures x in m - {r} {
      if a == b {
        var j :| 0 <= j < |d| && d[j] == x;
        assert c[if j < k then j else j + 1] in c;
      } else {
        var j :| 0 <= j < |ds[a]| && ds[a][j] == x;
        assert Bucket(hash, x.key, |cs|) == a && Bucket(hash, r.key, |cs|) == b;
      }
    }
  }

  lemma LinkedRest(c: seq<Node>, k: nat)
    requires k < |c| && Linked(c[k..])
    ensures c[k].hnext == Head(c[k + 1..]) && Linked(c[k + 1..])
  {
    var d, e := c[k..], c[k + 1..];
    assert d[0].hnext == Head(d[1..]) && d[1..] == e;
    forall i | 0 <= i < |e| ensures e[i].hnext == Head(e[i + 1..]) {
      assert d[i + 1].hnext == Head(d[i + 2..]) && d[i + 2..] == e[i + 1..];
    }
  }

  lemma HoldsIn(hash: Key -> nat, cs: seq<seq<Node>>, m: set<Node>)
    requires |cs| > 0 && Holds(hash, cs, m)
    ensures forall b, x | 0 <= b < |cs| && x in cs[b] :: x in m
  {
  }

  lemma NotIn(hash: Key -> nat, cs: seq<seq<Node>>, m: set<Node>, r: Node)
    requires |cs| > 0 && Holds(hash, cs, m) && r !in m
    ensures forall b | 0 <= b < |cs| :: r !in cs[b]
  {
    forall b | 0 <= b < |cs| ensures r !in cs[b] {
      assert r in cs[b] ==> r in m;
    }
  }

  lemma Fronted(hash: Key -> nat, cs: seq<seq<Node>>, m: set<Node>, r: Node)
    requires Placed(hash, cs) && Holds(hash, cs, m) && r !in m
    ensures var b := Bucket(hash, r.key, |cs|); var ds := cs[b := [r] + cs[b]];
            Placed(hash, ds) && Holds(hash, ds, m + {r})
  {
    hide Bucket;
    var b := Bucket(hash, r.key, |cs|);
    var ds := cs[b := [r] + cs[b]];
    forall i | 0 <= i < |cs[b]| ensures cs[b][i] != r {
      assert cs[b][i] in cs[b];
    }
    assert forall i | 0 < i < |ds[b]| :: ds[b][i] == cs[b][i - 1];
    forall x | x in m ensures x in ds[Bucket(hash, x.key, |cs|)] {
      assert x in cs[Bucket(hash, x.key, |cs|)];
    }
  }

  // ------------------------------------------------------------------ doubling

  /** Part way through a doubling: the new chains hold exactly the nodes of the old chains
      before bucket `i`, and the first `k` of chain `i`. */
  ghost predicate Moved(hash: Key -> nat, oc: seq<seq<Node>>, nc: seq<seq<Node>>, m: set<Node>, i: nat, k: nat) {
    && |oc| > 0 && |nc| > 0 && Placed(hash, oc) && Holds(hash, oc, m) && Placed(hash, nc)
    && i <= |oc| && (i < |oc| ==> k <= |oc[i]|)
    && (forall b, x | 0 <= b < |nc| && x in nc[b] :: x in m && Before(hash, oc, i, k, x))
    && (forall x | x in m && Before(hash, oc, i, k, x) :: x in nc[Bucket(hash, x.key, |nc|)])
  }

  ghost predicate Before(hash: Key -> nat, oc: seq<seq<Node>>, i: nat, k: nat, x: Node)
    requires |oc| > 0 && i <= |oc| && (i < |oc| ==> k <= |oc[i]|)
  {
    var b := Bucket(hash, x.key, |oc|);
    b < i || (b == i && x in oc[i][..k])
  }

  lemma NothingMoved(hash: Key -> nat, oc: seq<seq<Node>>, nc: seq<seq<Node>>, m: set<Node>)
    requires Placed(hash, oc) && Holds(hash, oc, m) && |nc| > 0
    requires forall b | 0 <= b < |nc| :: nc[b] == []
    ensures Moved(hash, oc, nc, m, 0, 0)
  {
  }

  /** The next node is neither moved already nor anywhere else in what is left. */
  lemma MovedNotIn(hash: Key -> nat, oc: seq<seq<Node>>, nc: seq<seq<Node>>, m: set<Node>, i: nat, k: nat)
    requires Moved(hash, oc, nc, m, i, k) && i < |oc| && k < |oc[i]|
    ensures var r := oc[i][k];
            && r in m && (forall b | 0 <= b < |nc| :: r !in nc[b])
            && r !in oc[i][k + 1..] && (forall b | i < b < |oc| :: r !in oc[b])
  {
    var r := oc[i][k];
    assert r in oc[i] && Bucket(hash, r.key, |oc|) == i;
    assert r !in oc[i][..k];
    NotInRest(oc[i], k);
    forall b | i < b < |oc| ensures r !in oc[b] {
      assert forall j | 0 <= j < |oc[b]| :: Bucket(hash, oc[b][j].key, |oc|) == b;
    }
  }

  lemma NotInRest(c: seq<Node>, k: nat)
    requires k < |c| && forall i, j | 0 <= i < j < |c| :: c[i] != c[j]
    ensures c[k] !in c[k + 1..]
  {
    var d := c[k + 1..];
    forall j | 0 <= j < |d| ensures d[j] != c[k] {
      assert d[j] == c[k + 1 + j];
    }
  }

  lemma MovedOne(hash: Key -> nat, oc: seq<seq<Node>>, nc: seq<seq<Node>>, m: set<Node>, i: nat, k: nat)
    requires Moved(hash, oc, nc, m, i, k) && i < |oc| && k < |oc[i]|
    ensures var r := oc[i][k]; var b := Bucket(hash, r.key, |nc|);
            Moved(hash, oc, nc[b := [r] + nc[b]], m, i, k + 1)
  {
    hide Bucket;
    var r := oc[i][k];
    var b := Bucket(hash, r.key, |nc|);
    var ds := nc[b := [r] + nc[b]];
    assert r in oc[i] && Bucket(hash, r.key, |oc|) == i;
    assert oc[i][..k + 1] == oc[i][..k] + [r];
    forall j | 0 <= j < |nc[b]| ensures nc[b][j] != r {
      assert nc[b][j] in nc[b];
      MovedNotIn(hash, oc, nc, m, i, k);
    }
    assert forall j | 0 < j < |ds[b]| :: ds[b][j] == nc[b][j - 1];
    assert Placed(hash, ds);
    forall x | x in m && Before(hash, oc, i, k + 1, x) ensures x in ds[Bucket(hash, x.key, |ds|)] {
      if x != r {
        assert Before(hash, oc, i, k, x);
      }
    }
    forall c, x | 0 <= c < |ds| && x in ds[c] ensures x in m && Before(hash, oc, i, k + 1, x) {
      if x != r {
        assert x in nc[c] && Before(hash, oc, i, k, x);
      }
    }
  }

  lemma MovedBucket(hash: Key -> nat, oc: seq<seq<Node>>, nc: seq<seq<Node>>, m: set<Node>, i: nat, k: nat)
    requires Moved(hash, oc, nc, m, i, k) && i < |oc| && k == |oc[i]|
    ensures Moved(hash, oc, nc, m, i + 1, 0)
  {
    hide Bucket;
    assert oc[i][..k] == oc[i];
    forall x | x in m && Before(hash, oc, i + 1, 0, x) ensures x in nc[Bucket(hash, x.key, |nc|)] {
      assert x in oc[Bucket(hash, x.key, |oc|)];
      assert Before(hash, oc, i, k, x);
    }
    forall b, x | 0 <= b < |nc| && x in nc[b] ensures x in m && Before(hash, oc, i + 1, 0, x) {
      assert Before(hash, oc, i, k, x);
    }
  }

  lemma MovedAll(hash: Key -> nat, oc: seq<seq<Node>>, nc: seq<seq<Node>>, m: set<Node>)
    requires Moved(hash, oc, nc, m, |oc|, 0)
    ensures Placed(hash, nc) && Holds(hash, nc, m)
  {
  }
}
