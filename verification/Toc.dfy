/** The persisted table of contents and super block (src/open.c:7-50, 156-234, 395-429, 505-539). */
module Toc {
  import opened Wrappers
  import opened Disk
  import opened Extents
  import opened Records
  import opened Spec
  import opened Crc
  import opened Octets

  // ---------------------------------------------------------- little endian

  /** put32 and put64: `w` bytes, least significant first. */
  function LE(n: nat, w: nat): (s: seq<byte>)
    ensures |s| == w
    decreases w
  {
    if w == 0 then [] else [Octet(n % 256)] + LE(n / 256, w - 1)
  }

  /** get32 and get64. */
  function UnLE(s: seq<byte>): nat {
    if s == [] then 0 else Value(s[0]) + 256 * UnLE(s[1..])
  }

  function Pow256(w: nat): (p: nat)
    ensures p > 0
  {
    if w == 0 then 1 else 256 * Pow256(w - 1)
  }

  lemma {:induction false} Unpacked(n: nat, w: nat)
    requires n < Pow256(w)
    ensures UnLE(LE(n, w)) == n
    decreases w
  {
    hide Value, Octet;
    if w > 0 {
      Unpacked(n / 256, w - 1);
      assert LE(n, w)[1..] == LE(n / 256, w - 1);
      ValueOf(n % 256);
    }
  }

  lemma Widths()
    ensures Pow256(4) == 0x1_0000_0000 && Pow256(8) == LIMIT
  {
    assert Pow256(2) == 65536;
    assert Pow256(4) == 256 * (256 * Pow256(2));
    assert Pow256(6) == 256 * (256 * Pow256(4));
    assert Pow256(8) == 256 * (256 * Pow256(6));
  }

  /** put32 and get32 of the checksum. */
  function PutReg(c: Reg): (s: seq<byte>)
    ensures |s| == 4
  {
    [Byte0(c.v), Byte1(c.v), Byte2(c.v), Byte3(c.v)]
  }

  function Byte0(v: bv32): byte { (v & 0xff) as byte }
  function Byte1(v: bv32): byte { ((v >> 8) & 0xff) as byte }
  function Byte2(v: bv32): byte { ((v >> 16) & 0xff) as byte }
  function Byte3(v: bv32): byte { ((v >> 24) & 0xff) as byte }

  function Join4(a: byte, b: byte, c: byte, d: byte): bv32 {
    (a as bv32) | ((b as bv32) << 8) | ((c as bv32) << 16) | ((d as bv32) << 24)
  }

  function GetReg(s: seq<byte>): Reg
    requires |s| == 4
  {
    Reg(Join4(s[0], s[1], s[2], s[3]))
  }

  lemma JoinedBits(v: bv32)
    ensures Join4(Byte0(v), Byte1(v), Byte2(v), Byte3(v)) == v
  {
  }

  lemma RegUnpacked(c: Reg)
    ensures GetReg(PutReg(c)) == c
  {
    hide Byte0, Byte1, Byte2, Byte3, Join4;
    JoinedBits(c.v);
  }

  // ------------------------------------------------------------------ entries

  datatype Entry = Entry(key: Key, size: nat, attr: seq<byte>, ext: seq<Extent>)

  function EmitExtents(ext: seq<Extent>, rest: seq<byte>): seq<byte> {
    if ext == [] then rest
    else LE(ext[0].foff, 8) + (LE(ext[0].len, 8) + EmitExtents(ext[1..], rest))
  }

  /** One record, followed by `rest`. */
  function Emit(e: Entry, rest: seq<byte>): seq<byte> {
    LE(|e.key|, 4) + (e.key + (LE(e.size, 8) + (LE(|e.attr|, 4) + (e.attr +
      (LE(|e.ext|, 4) + EmitExtents(e.ext, rest))))))
  }

  function Serialised(es: seq<Entry>): seq<byte> {
    if es == [] then [] else Emit(es[0], Serialised(es[1..]))
  }

  lemma {:induction false} EmitExtentsAppend(ext: seq<Extent>, r: seq<byte>, t: seq<byte>)
    ensures EmitExtents(ext, r + t) == EmitExtents(ext, r) + t
  {
    hide LE;
    if ext != [] {
      EmitExtentsAppend(ext[1..], r, t);
      var a, b, c := LE(ext[0].foff, 8), LE(ext[0].len, 8), EmitExtents(ext[1..], r);
      assert a + (b + (c + t)) == (a + (b + c)) + t;
    }
  }

  lemma EmitAppend(e: Entry, r: seq<byte>, t: seq<byte>)
    ensures Emit(e, r + t) == Emit(e, r) + t
  {
    hide LE, EmitExtents;
    EmitExtentsAppend(e.ext, r, t);
    var x0 := EmitExtents(e.ext, r);
    var x1 := LE(|e.ext|, 4) + x0;
    var x2 := e.attr + x1;
    var x3 := LE(|e.attr|, 4) + x2;
    var x4 := LE(e.size, 8) + x3;
    var x5 := e.key + x4;
    assert LE(|e.ext|, 4) + (x0 + t) == x1 + t;
    assert e.attr + (x1 + t) == x2 + t;
    assert LE(|e.attr|, 4) + (x2 + t) == x3 + t;
    assert LE(e.size, 8) + (x3 + t) == x4 + t;
    assert e.key + (x4 + t) == x5 + t;
    assert LE(|e.key|, 4) + (x5 + t) == (LE(|e.key|, 4) + x5) + t;
  }

  lemma {:induction false} SerialisedAppend(a: seq<Entry>, b: seq<Entry>)
    ensures Serialised(a + b) == Serialised(a) + Serialised(b)
  {
    hide Emit;
    if a == [] {
      assert a + b == b;
    } else {
      assert (a + b)[1..] == a[1..] + b;
      SerialisedAppend(a[1..], b);
      EmitAppend(a[0], Serialised(a[1..]), Serialised(b));
    }
  }

  /** put32 and put64. */
  method Put(n: nat, w: nat) returns (out: seq<byte>)
    ensures out == LE(n, w)
  {
    hide Octet;
    out := [];
    var v, i: nat := n, 0;
    while i < w
      invariant i <= w && out + LE(v, w - i) == LE(n, w)
    {
      assert LE(v, w - i) == [Octet(v % 256)] + LE(v / 256, w - i - 1);
      out := out + [Octet(v % 256)];
      v := v / 256;
      i := i + 1;
    }
  }

  /** The writes of one record (src/open.c:173-183). */
  method PutEntry(e: Entry) returns (out: seq<byte>)
    ensures out == Emit(e, [])
  {
    hide LE, EmitExtents;
    out := Put(|e.key|, 4);
    out := out + e.key;
    var size := Put(e.size, 8);
    out := out + size;
    var attrLen := Put(|e.attr|, 4);
    out := out + attrLen;
    out := out + e.attr;
    var count := Put(|e.ext|, 4);
    out := out + count;
    ghost var head := out;
    EmitNone();
    var i: nat := 0;
    while i < |e.ext|
      invariant i <= |e.ext| && out == head + EmitExtents(e.ext[..i], [])
    {
      EmitOneMore(e.ext, i);
      var foff := Put(e.ext[i].foff, 8);
      var len := Put(e.ext[i].len, 8);
      out := out + foff;
      out := out + len;
      i := i + 1;
    }
    assert e.ext[..|e.ext|] == e.ext;
  }

  lemma EmitNone()
    ensures EmitExtents([], []) == []
  {
  }

  lemma {:induction false} EmitOneMore(ext: seq<Extent>, i: nat)
    requires i < |ext|
    ensures EmitExtents(ext[..i + 1], []) == EmitExtents(ext[..i], []) + LE(ext[i].foff, 8) + LE(ext[i].len, 8)
  {
    hide LE;
    if i == 0 {
      assert ext[..1][1..] == [];
    } else {
      var rest := ext[1..];
      EmitOneMore(rest, i - 1);
      assert ext[..i + 1][1..] == rest[..i] && ext[..i][1..] == rest[..i - 1];
    }
  }

  /** toc_serialise. */
  method TocSerialise(es: seq<Entry>) returns (out: seq<byte>)
    ensures out == Serialised(es)
  {
    hide Emit;
    out := [];
    var i: nat := 0;
    while i < |es|
      invariant i <= |es| && out == Serialised(es[..i])
    {
      SerialisedAppend(es[..i], [es[i]]);
      assert es[..i] + [es[i]] == es[..i + 1];
      assert Serialised([es[i]]) == Emit(es[i], Serialised([es[i]][1..]));
      assert Serialised([]) == [] && [es[i]][1..] == [];
      var record := PutEntry(es[i]);
      out := out + record;
      i := i + 1;
    }
    assert es[..|es|] == es;
  }

  // ------------------------------------------------------------------ parsing

  function GetNum(b: seq<byte>, w: nat): Option<(nat, seq<byte>)> {
    if |b| < w then None else Some((UnLE(b[..w]), b[w..]))
  }

  function GetBytes(b: seq<byte>, n: nat): Option<(seq<byte>, seq<byte>)> {
    if |b| < n then None else Some((b[..n], b[n..]))
  }

  lemma GotNum(n: nat, w: nat, rest: seq<byte>)
    requires n < Pow256(w)
    ensures GetNum(LE(n, w) + rest, w) == Some((n, rest))
  {
    hide LE;
    Unpacked(n, w);
    assert (LE(n, w) + rest)[..w] == LE(n, w) && (LE(n, w) + rest)[w..] == rest;
  }

  lemma GotBytes(s: seq<byte>, rest: seq<byte>)
    ensures GetBytes(s + rest, |s|) == Some((s, rest))
  {
  }

  /** Extents are checked against the heap as they are read; the sum wraps at 64 bits. */
  function GetExtents(b: seq<byte>, n: nat, fileEnd: nat): Option<(seq<Extent>, seq<byte>)>
    decreases n
  {
    if n == 0 then Some(([], b))
    else
      match GetNum(b, 8)
      case None => None
      case Some((foff, b1)) =>
        match GetNum(b1, 8)
        case None => None
        case Some((len, b2)) =>
          if foff < SUPER || (foff + len) % LIMIT > fileEnd then None
          else
            match GetExtents(b2, n - 1, fileEnd)
            case None => None
            case Some((ext, b3)) => Some(([Extent(foff, len)] + ext, b3))
  }

  /** The part of a key before its first NUL. */
  function CString(s: seq<byte>): seq<byte> {
    if s == [] || s[0] == 0 then [] else [s[0]] + CString(s[1..])
  }

  lemma {:induction false} CStringWhole(s: seq<byte>)
    requires 0 !in s
    ensures CString(s) == s
  {
    if s != [] {
      assert s[0] in s;
      CStringWhole(s[1..]);
    }
  }

  /** One turn of toc_load. */
  function GetEntry(b: seq<byte>, fileEnd: nat): Option<(Entry, seq<byte>)> {
    match GetNum(b, 4)
    case None => None
    case Some((keyLen, b1)) =>
      if keyLen == 0 || keyLen > KEY_MAX then None else
      match GetBytes(b1, keyLen)
      case None => None
      case Some((key, b2)) =>
        match GetNum(b2, 8)
        case None => None
        case Some((size, b3)) => GetTail(CString(key), size, b3, fileEnd)
  }

  function GetTail(key: Key, size: nat, b: seq<byte>, fileEnd: nat): Option<(Entry, seq<byte>)> {
    match GetNum(b, 4)
    case None => None
    case Some((attrLen, b1)) =>
      if attrLen > ATTR_MAX then None else
      match GetBytes(b1, attrLen)
      case None => None
      case Some((attr, b2)) =>
        match GetNum(b2, 4)
        case None => None
        case Some((count, b3)) =>
          match GetExtents(b3, count, fileEnd)
          case None => None
          case Some((ext, b4)) => Some((Entry(key, size, attr, ext), b4))
  }

  function Parsed(b: seq<byte>, count: nat, fileEnd: nat): Option<seq<Entry>>
    decreases count
  {
    if count == 0 then Some([])
    else
      match GetEntry(b, fileEnd)
      case None => None
      case Some((e, rest)) =>
        match Parsed(rest, count - 1, fileEnd)
        case None => None
        case Some(es) => Some([e] + es)
  }

  /** get32 and get64, from the last byte down. */
  method Get(b: seq<byte>) returns (v: nat)
    ensures v == UnLE(b)
  {
    hide Value;
    v := 0;
    var i: nat := |b|;
    assert b[|b|..] == [];
    while i > 0
      invariant i <= |b| && v == UnLE(b[i..])
    {
      i := i - 1;
      assert b[i..][1..] == b[i + 1..];
      v := v * 256 + Value(b[i]);
    }
    assert b[0..] == b;
  }

  /** The extents of one record: room for all of them is checked first, then each against the heap
      (src/open.c:216-231). */
  method LoadExtents(b: seq<byte>, count: nat, fileEnd: nat) returns (r: Option<(seq<Extent>, seq<byte>)>)
    ensures r == GetExtents(b, count, fileEnd)
  {
    hide UnLE, GetExtents;
    if |b| < 16 * count {
      NoRoom(b, count, fileEnd);
      return None;
    }
    var ext: seq<Extent>, w, e: nat := [], b, 0;
    ThenNone(GetExtents(b, count, fileEnd));
    while e < count
      invariant e <= count && |w| >= 16 * (count - e)
      invariant GetExtents(b, count, fileEnd) == Then(ext, GetExtents(w, count - e, fileEnd))
    {
      var foff := Get(w[..8]);
      var len := Get(w[8..16]);
      NextExtent(w, count - e, fileEnd, ext);
      if foff < SUPER || (foff + len) % LIMIT > fileEnd {
        return None;
      }
      ext, w, e := ext + [Extent(foff, len)], w[16..], e + 1;
    }
    NoMoreExtents(w, fileEnd);
    assert ext + [] == ext;
    r := Some((ext, w));
  }

  /** `ext`, and then what the rest gives. */
  function Then(ext: seq<Extent>, r: Option<(seq<Extent>, seq<byte>)>): Option<(seq<Extent>, seq<byte>)> {
    match r
    case None => None
    case Some((more, rest)) => Some((ext + more, rest))
  }

  lemma ThenNone(r: Option<(seq<Extent>, seq<byte>)>)
    ensures Then([], r) == r
  {
    if r.Some? {
      assert [] + r.value.0 == r.value.0;
    }
  }

  lemma NextExtent(w: seq<byte>, n: nat, fileEnd: nat, ext: seq<Extent>)
    requires n > 0 && |w| >= 16
    ensures var foff, len := UnLE(w[..8]), UnLE(w[8..16]);
            Then(ext, GetExtents(w, n, fileEnd))
            == if foff < SUPER || (foff + len) % LIMIT > fileEnd then None
               else Then(ext + [Extent(foff, len)], GetExtents(w[16..], n - 1, fileEnd))
  {
    hide UnLE;
    assert w[8..][..8] == w[8..16] && w[8..][8..] == w[16..];
    var foff, len := UnLE(w[..8]), UnLE(w[8..16]);
    var rest := GetExtents(w[16..], n - 1, fileEnd);
    if rest.Some? {
      assert ext + ([Extent(foff, len)] + rest.value.0) == ext + [Extent(foff, len)] + rest.value.0;
    }
  }

  lemma NoMoreExtents(w: seq<byte>, fileEnd: nat)
    ensures GetExtents(w, 0, fileEnd) == Some(([], w))
  {
  }

  /** Without room for all of them, reading them one by one fails too. */
  lemma {:induction false} NoRoom(b: seq<byte>, n: nat, fileEnd: nat)
    requires |b| < 16 * n
    ensures GetExtents(b, n, fileEnd).None?
    decreases n
  {
    hide UnLE;
    if |b| >= 16 {
      assert b[8..][8..] == b[16..];
      NoRoom(b[16..], n - 1, fileEnd);
    }
  }

  /** The second half of one turn of toc_load (src/open.c:210-231). */
  method LoadTail(key: Key, size: nat, b: seq<byte>, fileEnd: nat) returns (r: Option<(Entry, seq<byte>)>)
    ensures r == GetTail(key, size, b, fileEnd)
  {
    hide UnLE, GetExtents;
    var w := b;
    if |w| < 4 {
      return None;
    }
    var attrLen := Get(w[..4]);
    w := w[4..];
    if attrLen > ATTR_MAX || |w| < attrLen + 4 {
      return None;
    }
    var attr := w[..attrLen];
    w := w[attrLen..];
    var count := Get(w[..4]);
    var exts := LoadExtents(w[4..], count, fileEnd);
    if exts.None? {
      return None;
    }
    r := Some((Entry(key, size, attr, exts.value.0), exts.value.1));
  }

  /** One turn of toc_load (src/open.c:201-231). */
  method LoadEntry(b: seq<byte>, fileEnd: nat) returns (r: Option<(Entry, seq<byte>)>)
    ensures r == GetEntry(b, fileEnd)
  {
    hide UnLE, GetTail;
    var w := b;
    if |w| < 4 {
      return None;
    }
    var keyLen := Get(w[..4]);
    w := w[4..];
    if keyLen == 0 || keyLen > KEY_MAX || |w| < keyLen + 8 {
      return None;
    }
    var key := CString(w[..keyLen]);
    w := w[keyLen..];
    var size := Get(w[..8]);
    r := LoadTail(key, size, w[8..], fileEnd);
  }

  /** toc_load: the records in the order they are inserted. */
  method TocLoad(b: seq<byte>, count: nat, fileEnd: nat) returns (r: Option<seq<Entry>>)
    ensures r == Parsed(b, count, fileEnd)
  {
    hide GetEntry;
    var es: seq<Entry> := [];
    var rest := b;
    var c: nat := 0;
    PrependNone(Parsed(b, count, fileEnd));
    while c < count
      invariant c <= count
      invariant Parsed(b, count, fileEnd) == Prepend(es, Parsed(rest, count - c, fileEnd))
    {
      var next := LoadEntry(rest, fileEnd);
      match next
      case None => return None;
      case Some((e, more)) =>
        PrependMore(es, e, Parsed(more, count - c - 1, fileEnd));
        es, rest, c := es + [e], more, c + 1;
    }
    assert es + [] == es;
    r := Some(es);
  }

  function Prepend(es: seq<Entry>, r: Option<seq<Entry>>): Option<seq<Entry>> {
    if r.None? then None else Some(es + r.value)
  }

  lemma PrependNone(r: Option<seq<Entry>>)
    ensures Prepend([], r) == r
  {
    if r.Some? {
      assert [] + r.value == r.value;
    }
  }

  lemma PrependMore(es: seq<Entry>, e: Entry, r: Option<seq<Entry>>)
    ensures Prepend(es, if r.None? then None else Some([e] + r.value)) == Prepend(es + [e], r)
  {
    if r.Some? {
      assert es + ([e] + r.value) == (es + [e]) + r.value;
    }
  }

  // --------------------------------------------------------------- round trip

  /** What the fixed-width fields can hold, and what the loader accepts. */
  predicate EntryOk(e: Entry, fileEnd: nat) {
    && KeyOk(e.key) && e.size < LIMIT && |e.attr| <= ATTR_MAX && |e.ext| < 0x1_0000_0000
    && forall i | 0 <= i < |e.ext| :: SUPER <= e.ext[i].foff && End(e.ext[i]) <= fileEnd
  }

  predicate EntriesOk(es: seq<Entry>, fileEnd: nat) {
    fileEnd < LIMIT && forall i | 0 <= i < |es| :: EntryOk(es[i], fileEnd)
  }

  /** An extent the loader takes: 64-bit numbers, inside the heap as far as their wrapped sum tells. */
  predicate Taken(x: Extent, fileEnd: nat) {
    x.foff < LIMIT && x.len < LIMIT && SUPER <= x.foff && (x.foff + x.len) % LIMIT <= fileEnd
  }

  lemma {:induction false} ExtentsBack(ext: seq<Extent>, rest: seq<byte>, fileEnd: nat)
    requires forall i | 0 <= i < |ext| :: Taken(ext[i], fileEnd)
    ensures GetExtents(EmitExtents(ext, rest), |ext|, fileEnd) == Some((ext, rest))
  {
    hide GetNum, LE;
    if ext != [] {
      Widths();
      var tail := EmitExtents(ext[1..], rest);
      assert Taken(ext[0], fileEnd);
      GotNum(ext[0].foff, 8, LE(ext[0].len, 8) + tail);
      GotNum(ext[0].len, 8, tail);
      ExtentsBack(ext[1..], rest, fileEnd);
      assert [Extent(ext[0].foff, ext[0].len)] + ext[1..] == ext;
    }
  }

  /** A record that fits its fields is read back, its key cut at the first NUL. */
  lemma RecordBack(e: Entry, rest: seq<byte>, fileEnd: nat)
    requires 0 < |e.key| <= KEY_MAX && e.size < LIMIT && |e.attr| <= ATTR_MAX && |e.ext| < 0x1_0000_0000
    requires forall i | 0 <= i < |e.ext| :: Taken(e.ext[i], fileEnd)
    ensures GetEntry(Emit(e, rest), fileEnd) == Some((e.(key := CString(e.key)), rest))
  {
    hide GetNum, GetBytes, LE, GetExtents, EmitExtents, Pow256, Taken, CString;
    Widths();
    var x0 := EmitExtents(e.ext, rest);
    var x1 := LE(|e.ext|, 4) + x0;
    var x2 := e.attr + x1;
    var x3 := LE(|e.attr|, 4) + x2;
    var x4 := LE(e.size, 8) + x3;
    var x5 := e.key + x4;
    GotNum(|e.key|, 4, x5);
    GotBytes(e.key, x4);
    GotNum(e.size, 8, x3);
    GotNum(|e.attr|, 4, x2);
    GotBytes(e.attr, x1);
    GotNum(|e.ext|, 4, x0);
    ExtentsBack(e.ext, rest, fileEnd);
  }

  lemma EntryBack(e: Entry, rest: seq<byte>, fileEnd: nat)
    requires EntryOk(e, fileEnd) && fileEnd < LIMIT
    ensures GetEntry(Emit(e, rest), fileEnd) == Some((e, rest))
  {
    hide GetEntry, Emit;
    RecordBack(e, rest, fileEnd);
    CStringWhole(e.key);
  }

  /** Parsing undoes serialising, whatever follows in the buffer. */
  lemma {:induction false} TocBack(es: seq<Entry>, rest: seq<byte>, fileEnd: nat)
    requires EntriesOk(es, fileEnd)
    ensures Parsed(Serialised(es) + rest, |es|, fileEnd) == Some(es)
  {
    hide GetEntry, Emit;
    if es != [] {
      EmitAppend(es[0], Serialised(es[1..]), rest);
      EntryBack(es[0], Serialised(es[1..]) + rest, fileEnd);
      TocBack(es[1..], rest, fileEnd);
      assert [es[0]] + es[1..] == es;
    }
  }

  // -------------------------------------------------------------- super block

  const MAGIC: seq<byte> := [0x4c, 0x49, 0x42, 0x53, 0x50, 0x49, 0x4c, 0x4c]
  const VERSION: nat := 2

  /** The seven 8-byte words in use at the front of the super block (src/open.c:514-528). */
  function Words(fileEnd: nat, count: nat, crc: Reg, tocLen: nat): seq<seq<byte>> {
    [MAGIC, LE(VERSION, 4) + LE(0, 4), LE(fileEnd, 8), LE(count, 8), LE(fileEnd, 8), PutReg(crc) + Zeros(4), LE(tocLen, 8)]
  }

  lemma {:induction false} FlatWord(ws: seq<seq<byte>>, i: nat)
    requires forall k | 0 <= k < |ws| :: |ws[k]| == 8
    ensures |Flat(ws)| == 8 * |ws|
    ensures i < |ws| ==> Flat(ws)[8 * i..8 * i + 8] == ws[i]
  {
    if ws != [] {
      FlatWord(ws[1..], if i > 0 then i - 1 else 0);
      if 0 < i < |ws| {
        assert Flat(ws)[8 * i..8 * i + 8] == Flat(ws[1..])[8 * (i - 1)..8 * (i - 1) + 8];
      }
    }
  }

  /** The super block ls_close writes. */
  function SuperBlock(fileEnd: nat, count: nat, crc: Reg, tocLen: nat): (sb: seq<byte>)
    ensures |sb| == SUPER
  {
    hide LE, PutReg;
    FlatWord(Words(fileEnd, count, crc, tocLen), 0);
    Flat(Words(fileEnd, count, crc, tocLen)) + Zeros(SUPER - 56)
  }

  lemma SuperWord(fileEnd: nat, count: nat, crc: Reg, tocLen: nat, i: nat)
    requires i < 7
    ensures SuperBlock(fileEnd, count, crc, tocLen)[8 * i..8 * i + 8] == Words(fileEnd, count, crc, tocLen)[i]
  {
    hide LE, PutReg, Zeros, Flat;
    var ws := Words(fileEnd, count, crc, tocLen);
    FlatWord(ws, i);
    var sb := SuperBlock(fileEnd, count, crc, tocLen);
    assert sb[8 * i..8 * i + 8] == Flat(ws)[8 * i..8 * i + 8];
  }

  datatype Loaded = Loaded(entries: seq<Entry>, fileEnd: nat)

  /** What ls_open makes of an existing file, up to the free list (src/open.c:395-424). */
  function LoadImage(f: seq<byte>): Option<Loaded> {
    if |f| < SUPER then None
    else if f[..8] != MAGIC || UnLE(f[8..12]) != VERSION then None
    else
      var tocOff := UnLE(f[16..24]);
      var fileEnd := UnLE(f[32..40]);
      var recorded := UnLE(f[48..56]);
      if tocOff < SUPER || tocOff > |f| then None
      else
        var tocLen := if recorded == 0 then |f| - tocOff else recorded;
        if tocLen > |f| - tocOff then None
        else
          var toc := f[tocOff..tocOff + tocLen];
          if Crc32(toc) != GetReg(f[40..44]) then None
          else
            match Parsed(toc, UnLE(f[24..32]), fileEnd)
            case None => None
            case Some(es) => Some(Loaded(es, fileEnd))
  }

  /** The file holds `es` as ls_close wrote it. */
  ghost predicate Image(f: seq<byte>, es: seq<Entry>, fileEnd: nat) {
    var toc := Serialised(es);
    && SUPER <= fileEnd && fileEnd + |toc| <= |f| && |toc| < LIMIT && |es| < LIMIT
    && f[..SUPER] == SuperBlock(fileEnd, |es|, Crc32(toc), |toc|)
    && f[fileEnd..fileEnd + |toc|] == toc
  }

  /** The fields of a file's super block read as given. */
  ghost predicate Says(f: seq<byte>, fileEnd: nat, count: nat, crc: Reg, tocLen: nat)
    requires SUPER <= |f|
  {
    && f[..8] == MAGIC && UnLE(f[8..12]) == VERSION
    && UnLE(f[16..24]) == UnLE(f[32..40]) == fileEnd && UnLE(f[24..32]) == count
    && GetReg(f[40..44]) == crc && UnLE(f[48..56]) == tocLen
  }

  lemma SuperBack(f: seq<byte>, fileEnd: nat, count: nat, crc: Reg, tocLen: nat)
    requires SUPER <= |f| && fileEnd < LIMIT && count < LIMIT && tocLen < LIMIT
    requires SuperBlock(fileEnd, count, crc, tocLen) == f[..SUPER]
    ensures Says(f, fileEnd, count, crc, tocLen)
  {
    hide LE, PutReg, GetReg, SuperBlock, UnLE, Pow256, Zeros;
    Widths();
    SuperWord(fileEnd, count, crc, tocLen, 0);
    SuperWord(fileEnd, count, crc, tocLen, 1);
    SuperWord(fileEnd, count, crc, tocLen, 2);
    SuperWord(fileEnd, count, crc, tocLen, 3);
    SuperWord(fileEnd, count, crc, tocLen, 4);
    SuperWord(fileEnd, count, crc, tocLen, 5);
    SuperWord(fileEnd, count, crc, tocLen, 6);
    Inside(f, SUPER, 0, 8);
    Inside(f, SUPER, 8, 16);
    Inside(f, SUPER, 16, 24);
    Inside(f, SUPER, 24, 32);
    Inside(f, SUPER, 32, 40);
    Inside(f, SUPER, 40, 48);
    Inside(f, SUPER, 48, 56);
    FirstHalf(f, 8, LE(VERSION, 4), LE(0, 4));
    FirstHalf(f, 40, PutReg(crc), Zeros(4));
    Unpacked(VERSION, 4);
    Unpacked(fileEnd, 8);
    Unpacked(count, 8);
    Unpacked(tocLen, 8);
    RegUnpacked(crc);
  }

  lemma Inside(f: seq<byte>, n: nat, i: nat, j: nat)
    requires i <= j <= n <= |f|
    ensures f[..n][i..j] == f[i..j]
  {
  }

  lemma FirstHalf(f: seq<byte>, i: nat, a: seq<byte>, b: seq<byte>)
    requires |a| == |b| == 4 && i + 8 <= |f|
    ensures f[i..i + 8] == a + b ==> f[i..i + 4] == a
  {
    if f[i..i + 8] == a + b {
      assert f[i..i + 4] == f[i..i + 8][..4];
    }
  }

  lemma SerialisedSome(es: seq<Entry>)
    requires es != []
    ensures |Serialised(es)| > 0
  {
  }

  /** A kept store with at least one record loads back exactly. */
  lemma LoadsBack(f: seq<byte>, es: seq<Entry>, fileEnd: nat)
    requires Image(f, es, fileEnd) && EntriesOk(es, fileEnd) && es != []
    ensures LoadImage(f) == Some(Loaded(es, fileEnd))
  {
    hide Serialised, SuperBlock, UnLE, Parsed, GetReg, Crc32;
    SuperBack(f, fileEnd, |es|, Crc32(Serialised(es)), |Serialised(es)|);
    SerialisedSome(es);
    TocBack(es, [], fileEnd);
    assert Serialised(es) + [] == Serialised(es);
  }

  /** With no records the length field is zero and the table is taken to be the rest of the
      file: the store loads if and only if what follows the heap has the empty checksum. */
  lemma EmptyLoadsBack(f: seq<byte>, fileEnd: nat)
    requires Image(f, [], fileEnd) && fileEnd < LIMIT
    ensures LoadImage(f).Some? <==> Crc32(f[fileEnd..]) == Crc32([])
    ensures LoadImage(f).Some? ==> LoadImage(f) == Some(Loaded([], fileEnd))
    ensures |f| == fileEnd ==> LoadImage(f).Some?
  {
    hide SuperBlock, UnLE, GetReg, Crc32;
    SuperBack(f, fileEnd, 0, Crc32([]), 0);
    assert f[fileEnd..fileEnd + (|f| - fileEnd)] == f[fileEnd..];
    assert |f| == fileEnd ==> f[fileEnd..] == [];
  }

  // ------------------------------------------------------------------- damage

  /** A table of contents of the same length with another checksum is refused. */
  lemma OtherTableRefused(f: seq<byte>, g: seq<byte>, es: seq<Entry>, fileEnd: nat)
    requires Image(f, es, fileEnd) && es != [] && fileEnd < LIMIT
    requires |g| == |f| && g[..SUPER] == f[..SUPER]
    requires Crc32(g[fileEnd..fileEnd + |Serialised(es)|]) != Crc32(Serialised(es))
    ensures LoadImage(g).None?
  {
    hide Serialised, SuperBlock, UnLE, Parsed, GetReg, Crc32;
    SuperBack(g, fileEnd, |es|, Crc32(Serialised(es)), |Serialised(es)|);
    SerialisedSome(es);
  }

  /** Changing any one byte of the table makes the store unreadable. */
  lemma DamagedByteRefused(f: seq<byte>, es: seq<Entry>, fileEnd: nat, i: nat, v: byte)
    requires Image(f, es, fileEnd) && es != [] && fileEnd < LIMIT
    requires i < |Serialised(es)| && v != f[fileEnd + i]
    ensures LoadImage(f[fileEnd + i := v]).None?
  {
    hide Serialised, SuperBlock, Crc32, LoadImage;
    var toc := Serialised(es);
    var g := f[fileEnd + i := v];
    assert f[fileEnd..fileEnd + |toc|][i] == f[fileEnd + i];
    ByteDetected(toc, i, v);
    assert g[fileEnd..fileEnd + |toc|] == toc[i := v];
    assert g[..SUPER] == f[..SUPER];
    OtherTableRefused(f, g, es, fileEnd);
  }

  /** So does any damage inside four consecutive bytes of the table. */
  lemma DamagedBurstRefused(f: seq<byte>, g: seq<byte>, es: seq<Entry>, fileEnd: nat, i: nat)
    requires Image(f, es, fileEnd) && es != [] && fileEnd < LIMIT
    requires i + 4 <= |Serialised(es)| && |g| == |f| && g != f
    requires g[..fileEnd + i] == f[..fileEnd + i] && g[fileEnd + i + 4..] == f[fileEnd + i + 4..]
    ensures LoadImage(g).None?
  {
    hide Serialised, SuperBlock, Crc32, LoadImage;
    var toc := Serialised(es);
    var bad := g[fileEnd..fileEnd + |toc|];
    var x, y := toc[i..i + 4], bad[i..i + 4];
    SameOutsideWindow(f, g, fileEnd, |toc|, i);
    assert f[fileEnd..fileEnd + |toc|] == toc;
    assert toc == toc[..i] + x + toc[i + 4..] && bad == toc[..i] + y + toc[i + 4..];
    BurstDetected(toc[..i], x, y, toc[i + 4..]);
    assert g[..SUPER] == f[..fileEnd + i][..SUPER] == f[..SUPER];
    OtherTableRefused(f, g, es, fileEnd);
  }

  lemma OnlyThere(f: seq<byte>, g: seq<byte>, lo: nat, x: nat)
    requires |g| == |f| && lo + 4 <= |f| && g[..lo] == f[..lo] && g[lo + 4..] == f[lo + 4..] && x < |f|
    ensures lo <= x < lo + 4 || f[x] == g[x]
  {
    if x < lo {
      assert f[..lo][x] == g[..lo][x];
    } else if lo + 4 <= x {
      assert f[lo + 4..][x - (lo + 4)] == g[lo + 4..][x - (lo + 4)];
    }
  }

  lemma SameOutsideWindow(f: seq<byte>, g: seq<byte>, at: nat, n: nat, i: nat)
    requires |g| == |f| && at + n <= |f| && i + 4 <= n
    requires g[..at + i] == f[..at + i] && g[at + i + 4..] == f[at + i + 4..] && g != f
    ensures var a, b := f[at..at + n], g[at..at + n];
            b[..i] == a[..i] && b[i + 4..] == a[i + 4..] && a[i..i + 4] != b[i..i + 4]
  {
    var a, b := f[at..at + n], g[at..at + n];
    forall p: nat | p < n && !(i <= p < i + 4) ensures a[p] == b[p] {
      OnlyThere(f, g, at + i, at + p);
    }
    SameEnds(a, b, i);
    Stretch(f, at, n, i);
    Stretch(g, at, n, i);
    var x: nat :| x < |f| && f[x] != g[x];
    OnlyThere(f, g, at + i, x);
    Apart4(f[at + i..at + i + 4], g[at + i..at + i + 4], x - at - i);
  }

  lemma SameEnds(a: seq<byte>, b: seq<byte>, i: nat)
    requires |a| == |b| && i + 4 <= |a| && forall p: nat | p < |a| && !(i <= p < i + 4) :: a[p] == b[p]
    ensures b[..i] == a[..i] && b[i + 4..] == a[i + 4..]
  {
    var c, d := a[i + 4..], b[i + 4..];
    forall p | 0 <= p < |c| ensures c[p] == d[p] {
      assert c[p] == a[i + 4 + p] && d[p] == b[i + 4 + p];
    }
  }

  lemma Stretch(f: seq<byte>, at: nat, n: nat, i: nat)
    requires at + n <= |f| && i + 4 <= n
    ensures f[at..at + n][i..i + 4] == f[at + i..at + i + 4]
  {
    var a := f[at..at + n];
    var c, d := a[i..i + 4], f[at + i..at + i + 4];
    assert |c| == |d| == 4;
    forall p | 0 <= p < 4 ensures c[p] == d[p] {
      assert c[p] == a[i + p] == f[at + (i + p)];
      assert d[p] == f[at + i + p];
    }
  }

  lemma Apart4(a: seq<byte>, b: seq<byte>, j: nat)
    requires j < |a| == |b| && a[j] != b[j]
    ensures a != b
  {
  }
}
