/** A store closed with no records: a table length of 0 is read as "to the end of the file"
    (src/open.c:413-418), so an older table left there makes the store unreadable. */
module Stale {
  import opened Disk
  import opened Extents
  import opened Holes
  import opened Records
  import opened Updates
  import opened Crc
  import opened Toc
  import opened Persist
  import opened Store

  function Lone(b: byte): Entry { Entry([b], 0, [], []) }

  lemma LoneTable(b: byte, c: byte)
    ensures |Serialised([Lone(b)])| == 21
    ensures Serialised([Lone(c)]) == Serialised([Lone(b)])[4 := c]
  {
    hide LE;
    assert Serialised([Lone(b)]) == Emit(Lone(b), Serialised([]));
    assert Serialised([Lone(c)]) == Emit(Lone(c), Serialised([]));
    assert Serialised([Lone(b)])[4] == b;
  }

  /** Of two tables that differ in one byte, at most one has the checksum of nothing. */
  method LoneKey() returns (b: byte)
    ensures b != 0 && Crc32(Serialised([Lone(b)])) != Crc32([])
  {
    hide Serialised, Crc32;
    var one := TocSerialise([Lone(1)]);
    var crc := Crc32Of(one);
    var none := Crc32Of([]);
    LoneTable(1, 2);
    LoneTable(1, 1);
    ByteDetected(one, 4, 2);
    b := if crc == none then 2 else 1;
  }

  lemma OnlyOne(es: seq<Entry>, b: byte)
    requires Lists(es, map[[b] := EMPTY])
    ensures es == [Lone(b)]
  {
    var recs: map<Key, Rec> := map[[b] := EMPTY];
    assert [b] in recs;
    var i :| 0 <= i < |es| && es[i].key == [b];
    forall j | 0 <= j < |es| ensures j == i && es[j] == Lone(b) {
    }
  }

  lemma NoneOnList(recs: map<Key, Rec>, lru: seq<Key>, resident: nat, budget: nat)
    requires Tier(recs, lru, resident, budget) && forall k | k in recs :: recs[k].mem.None?
    ensures resident == 0
  {
    EmptyOrNot(lru);
  }

  lemma NothingEmitted()
    ensures Serialised([]) == []
  {
  }

  lemma OldTable(f: seq<byte>, b: byte)
    requires |f| == SUPER
    ensures var g := Closed(f, [Lone(b)], SUPER);
            |g| == SUPER + 21 && Closed(g, [], SUPER)[SUPER..] == g[SUPER..] == Serialised([Lone(b)])
  {
    hide Serialised, SuperBlock, Crc32;
    LoneTable(b, b);
    var toc := Serialised([Lone(b)]);
    var g := Closed(f, [Lone(b)], SUPER);
    var h := Closed(g, [], SUPER);
    NothingEmitted();
    forall i: nat | i < 21 ensures g[SUPER + i] == toc[i] && h[SUPER + i] == g[SUPER + i] {
      assert At(g, SUPER + i) == toc[i];
      assert At(h, SUPER + i) == At(g, SUPER + i);
    }
  }

  /** Reserve nothing under one key, close, reopen. */
  method LeaveTable(b: byte) returns (t: Store)
    requires b != 0
    ensures fresh(t) && fresh(t.heap) && fresh(t.file) && t.Valid() && !t.shared && t.file.Clean() && !t.file.direct
    ensures t.recs == map[[b] := EMPTY] && t.heap.fileEnd == SUPER
    ensures t.file.data == Closed(Zeros(SUPER), [Lone(b)], SUPER)
  {
    hide Serialised, Closed, Lists, Tier, RecsOk, Owned, View, Partition, Bytes, SameMeta;
    var file := new File(Zeros(SUPER), [], false);
    var s := new Store(file, 0);
    NoneOnList(s.recs, s.lru, s.resident, 0);
    var ok := s.Prepare([b], 0);
    NoneOnList(s.recs, s.lru, s.resident, 0);
    var u, es := CloseThenReopen(s, 0, false);
    OnlyOne(es, b);
    LoneTable(b, b);
    t := u;
  }

  /** Then erase the key and close again: every step succeeds, and the file is one the library will
      not open. */
  method EmptyStoreRefused() returns (file: File)
    ensures fresh(file) && Image(file.data, [], SUPER) && LoadImage(file.data).None?
  {
    hide Serialised, Crc32, LoadImage, Image, Closed, Tier, RecsOk, Owned, Table, View, Partition, Bytes, SameMeta;
    var b := LoneKey();
    var t := LeaveTable(b);
    OldTable(Zeros(SUPER), b);
    t.EraseKey([b]);
    NoneOnList(t.recs, t.lru, t.resident, t.budget);
    var ok, es := CloseKeep(t);
    NothingListed(es);
    file := t.file;
    EmptyLoadsBack(file.data, SUPER);
  }

  lemma NothingListed(es: seq<Entry>)
    requires Lists(es, map[])
    ensures es == [] && Serialised(es) == [] && Fits(es, SUPER)
  {
    ListsCount(es, map[]);
  }
}
