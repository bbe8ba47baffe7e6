/** The bytes of the persisted store, one by one (src/open.c:7-23, 31-38, 173-183, 201-231, 395-424, 513-528). */
module Format {
  import opened Disk
  import opened Extents
  import opened Records
  import opened Spec
  import opened Crc
  import opened Octets
  import opened Toc
  import opened Wrappers

  // ---------------------------------------------------------- little endian

  /** Four bytes at `at` hold `n`, least significant first. */
  predicate Four(s: seq<byte>, at: nat, n: nat) {
    && at + 4 <= |s|
    && s[at] as int == n % 256 && s[at + 1] as int == n / 0x100 % 256
    && s[at + 2] as int == n / 0x1_0000 % 256 && s[at + 3] as int == n / 0x100_0000 % 256
  }

  predicate Eight(s: seq<byte>, at: nat, n: nat) {
    Four(s, at, n) && Four(s, at + 4, n / 0x1_0000_0000)
  }

  predicate Zero(s: seq<byte>, from: nat, to: nat) {
    to <= |s| && forall i | from <= i < to :: s[i] == 0
  }

  lemma {:induction false} LEByte(n: nat, w: nat, i: nat)
    requires i < w
    ensures LE(n, w)[i] as int == n / Pow256(i) % 256
    decreases w
  {
    hide Octet;
    ValueOf(n % 256);
    if i > 0 {
      LEByte(n / 256, w - 1, i - 1);
      DivDiv(n, Pow256(i - 1));
    }
  }

  lemma DivDiv(n: nat, p: nat)
    requires p > 0
    ensures n / 256 / p == n / (256 * p)
  {
    var q := n / 256 / p;
    assert n / 256 == p * q + n / 256 % p;
    assert n == 256 * (n / 256) + n % 256;
    var r := 256 * (n / 256 % p) + n % 256;
    assert n == (256 * p) * q + r by {
      assert 256 * (p * q) == (256 * p) * q;
    }
    Quotient(n, 256 * p, q, r);
  }

  lemma Quotient(n: nat, d: nat, q: nat, r: nat)
    requires d > 0 && n == d * q + r && r < d
    ensures n / d == q
  {
    var k, m := n / d, n % d;
    assert n == d * k + m;
    assert d * (k - q) == r - m;
    Multiple(d, k - q);
  }

  lemma Multiple(d: nat, x: int)
    ensures (x >= 1 ==> d * x >= d) && (x <= -1 ==> d * x + d <= 0)
  {
  }

  lemma Powers()
    ensures Pow256(0) == 1 && Pow256(1) == 0x100 && Pow256(2) == 0x1_0000 && Pow256(3) == 0x100_0000
  {
    assert Pow256(2) == 256 * Pow256(1);
    assert Pow256(3) == 256 * Pow256(2);
  }

  lemma LEFour(n: nat)
    ensures Four(LE(n, 4), 0, n)
  {
    hide LE, Pow256;
    Powers();
    LEByte(n, 4, 0);
    LEByte(n, 4, 1);
    LEByte(n, 4, 2);
    LEByte(n, 4, 3);
  }

  lemma LESplit(n: nat)
    ensures LE(n, 8) == LE(n, 4) + LE(n / 0x1_0000_0000, 4)
  {
    hide LE;
    LEFirst(n, 8);
    LEFirst(n / 256, 7);
    LEFirst(n / 256 / 256, 6);
    LEFirst(n / 256 / 256 / 256, 5);
    LEFirst(n, 4);
    LEFirst(n / 256, 3);
    LEFirst(n / 256 / 256, 2);
    LEFirst(n / 256 / 256 / 256, 1);
    LENone(n / 256 / 256 / 256 / 256);
    assert n / 256 / 256 / 256 / 256 == n / 0x1_0000_0000;
  }

  lemma LEFirst(n: nat, w: nat)
    requires w > 0
    ensures LE(n, w) == [Octet(n % 256)] + LE(n / 256, w - 1)
  {
  }

  lemma LENone(n: nat)
    ensures LE(n, 0) == []
  {
  }

  lemma LEEight(n: nat)
    ensures Eight(LE(n, 8), 0, n)
  {
    hide LE;
    LESplit(n);
    LEFour(n);
    LEFour(n / 0x1_0000_0000);
  }

  /** The checksum is put the same way. */
  lemma RegBytes(c: Reg)
    ensures PutReg(c)[0] as bv32 == c.v & 0xff && PutReg(c)[1] as bv32 == (c.v >> 8) & 0xff
    ensures PutReg(c)[2] as bv32 == (c.v >> 16) & 0xff && PutReg(c)[3] as bv32 == (c.v >> 24) & 0xff
  {
    hide Byte0, Byte1, Byte2, Byte3;
    RegByte0(c.v);
    RegByte1(c.v);
    RegByte2(c.v);
    RegByte3(c.v);
  }

  /** Any four bytes hold some checksum. */
  lemma RegHeld(s: seq<byte>)
    requires |s| == 4
    ensures PutReg(GetReg(s)) == s
  {
    hide Byte0, Byte1, Byte2, Byte3, Join4;
    Bits0(s[0], s[1], s[2], s[3]);
    Bits1(s[0], s[1], s[2], s[3]);
    Bits2(s[0], s[1], s[2], s[3]);
    Bits3(s[0], s[1], s[2], s[3]);
  }

  lemma Bits0(a: byte, b: byte, c: byte, d: byte)
    ensures Byte0(Join4(a, b, c, d)) == a
  {
  }

  lemma Bits1(a: byte, b: byte, c: byte, d: byte)
    ensures Byte1(Join4(a, b, c, d)) == b
  {
  }

  lemma Bits2(a: byte, b: byte, c: byte, d: byte)
    ensures Byte2(Join4(a, b, c, d)) == c
  {
  }

  lemma Bits3(a: byte, b: byte, c: byte, d: byte)
    ensures Byte3(Join4(a, b, c, d)) == d
  {
  }

  lemma RegByte0(v: bv32)
    ensures Byte0(v) as bv32 == v & 0xff
  {
  }

  lemma RegByte1(v: bv32)
    ensures Byte1(v) as bv32 == (v >> 8) & 0xff
  {
  }

  lemma RegByte2(v: bv32)
    ensures Byte2(v) as bv32 == (v >> 16) & 0xff
  {
  }

  lemma RegByte3(v: bv32)
    ensures Byte3(v) as bv32 == (v >> 24) & 0xff
  {
  }

  lemma {:induction false} Packed(s: seq<byte>)
    ensures LE(UnLE(s), |s|) == s && UnLE(s) < Pow256(|s|)
  {
    hide Octet, Value;
    if s != [] {
      Packed(s[1..]);
      OctetOf(s[0]);
      var v, u := Value(s[0]), UnLE(s[1..]);
      Digits(v, u);
      LEFirst(UnLE(s), |s|);
      assert [s[0]] + s[1..] == s;
    }
  }

  lemma Digits(v: nat, u: nat)
    requires v < 256
    ensures (v + 256 * u) % 256 == v && (v + 256 * u) / 256 == u
  {
  }

  lemma FourAt(s: seq<byte>, at: nat, n: nat)
    requires at + 4 <= |s| && s[at..at + 4] == LE(n, 4)
    ensures Four(s, at, n)
  {
    hide LE;
    LEFour(n);
    Window4(s, at);
  }

  lemma EightAt(s: seq<byte>, at: nat, n: nat)
    requires at + 8 <= |s| && s[at..at + 8] == LE(n, 8)
    ensures Eight(s, at, n)
  {
    hide LE, Four;
    LESplit(n);
    Halves(s, at, LE(n, 4), LE(n / 0x1_0000_0000, 4));
    FourAt(s, at, n);
    FourAt(s, at + 4, n / 0x1_0000_0000);
  }

  lemma Window4(s: seq<byte>, at: nat)
    requires at + 4 <= |s|
    ensures var w := s[at..at + 4]; w[0] == s[at] && w[1] == s[at + 1] && w[2] == s[at + 2] && w[3] == s[at + 3]
  {
  }

  lemma Halves(s: seq<byte>, at: nat, a: seq<byte>, b: seq<byte>)
    requires |a| == |b| == 4 && at + 8 <= |s| && s[at..at + 8] == a + b
    ensures s[at..at + 4] == a && s[at + 4..at + 8] == b
  {
    assert s[at..at + 4] == s[at..at + 8][..4];
    assert s[at + 4..at + 8] == s[at..at + 8][4..];
  }

  /** What a number read from four or eight bytes is. */
  lemma ReadFour(s: seq<byte>)
    requires |s| == 4
    ensures UnLE(s) == s[0] as int + 0x100 * s[1] as int + 0x1_0000 * s[2] as int + 0x100_0000 * s[3] as int
  {
    hide UnLE, Value;
    UnLEFirst(s);
    UnLEFirst(s[1..]);
    UnLEFirst(s[2..]);
    UnLEFirst(s[3..]);
    UnLENone();
    assert s[1..][1..] == s[2..] && s[2..][1..] == s[3..] && s[3..][1..] == [];
    OctetOf(s[0]);
    OctetOf(s[1]);
    OctetOf(s[2]);
    OctetOf(s[3]);
  }

  lemma UnLEFirst(s: seq<byte>)
    requires s != []
    ensures UnLE(s) == Value(s[0]) + 256 * UnLE(s[1..])
  {
  }

  lemma UnLENone()
    ensures UnLE([]) == 0
  {
  }

  lemma ReadEight(s: seq<byte>)
    requires |s| == 8
    ensures UnLE(s) == UnLE(s[..4]) + 0x1_0000_0000 * UnLE(s[4..])
  {
    UnLESplit(s, 4);
    Widths();
  }

  lemma {:induction false} UnLESplit(s: seq<byte>, i: nat)
    requires i <= |s|
    ensures UnLE(s) == UnLE(s[..i]) + Pow256(i) * UnLE(s[i..])
  {
    hide Value, UnLE;
    if i == 0 {
      assert s[0..] == s;
      UnLENone();
    } else {
      UnLESplit(s[1..], i - 1);
      assert s[..i][1..] == s[1..][..i - 1] && s[1..][i - 1..] == s[i..];
      UnLEFirst(s);
      UnLEFirst(s[..i]);
      Rescale(Pow256(i - 1), UnLE(s[i..]));
    }
  }

  lemma Rescale(p: nat, u: nat)
    ensures 256 * (p * u) == (256 * p) * u
  {
  }

  // -------------------------------------------------------------- super block

  /** Every byte of the super block ls_close writes. */
  lemma SuperBytes(fileEnd: nat, count: nat, crc: Reg, tocLen: nat)
    ensures var sb := SuperBlock(fileEnd, count, crc, tocLen);
            && |sb| == 4096
            && sb[..8] == [0x4c, 0x49, 0x42, 0x53, 0x50, 0x49, 0x4c, 0x4c]
            && sb[8..16] == [2, 0, 0, 0, 0, 0, 0, 0]
            && Eight(sb, 16, fileEnd) && Eight(sb, 24, count) && Eight(sb, 32, fileEnd)
            && sb[40..44] == PutReg(crc) && Zero(sb, 44, 48)
            && Eight(sb, 48, tocLen) && Zero(sb, 56, 4096)
  {
    hide LE, PutReg, SuperBlock, Eight, Zeros;
    var sb := SuperBlock(fileEnd, count, crc, tocLen);
    SuperWord(fileEnd, count, crc, tocLen, 0);
    SuperWord(fileEnd, count, crc, tocLen, 1);
    SuperWord(fileEnd, count, crc, tocLen, 2);
    SuperWord(fileEnd, count, crc, tocLen, 3);
    SuperWord(fileEnd, count, crc, tocLen, 4);
    SuperWord(fileEnd, count, crc, tocLen, 5);
    SuperWord(fileEnd, count, crc, tocLen, 6);
    SuperTail(fileEnd, count, crc, tocLen);
    VersionWord();
    EightAt(sb, 16, fileEnd);
    EightAt(sb, 24, count);
    EightAt(sb, 32, fileEnd);
    EightAt(sb, 48, tocLen);
    CrcWord(sb, PutReg(crc));
  }

  lemma VersionWord()
    ensures LE(VERSION, 4) + LE(0, 4) == [2, 0, 0, 0, 0, 0, 0, 0]
  {
    hide LE;
    LEFour(2);
    LEFour(0);
  }

  lemma CrcWord(sb: seq<byte>, crc: seq<byte>)
    requires |sb| >= 48 && |crc| == 4 && sb[40..48] == crc + Zeros(4)
    ensures sb[40..44] == crc && Zero(sb, 44, 48)
  {
    Halves(sb, 40, crc, Zeros(4));
    Window4(sb, 44);
  }

  lemma SuperTail(fileEnd: nat, count: nat, crc: Reg, tocLen: nat)
    ensures Zero(SuperBlock(fileEnd, count, crc, tocLen), 56, 4096)
  {
    hide LE, PutReg, Flat;
    FlatWord(Words(fileEnd, count, crc, tocLen), 0);
  }

  lemma SameByte(a: byte, b: byte)
    requires a as int == b as int
    ensures a == b
  {
    OctetOf(a);
    OctetOf(b);
  }

  lemma FourIs(s: seq<byte>, at: nat, n: nat)
    requires Four(s, at, n)
    ensures s[at..at + 4] == LE(n, 4)
  {
    hide LE;
    LEFour(n);
    var t := LE(n, 4);
    SameByte(s[at], t[0]);
    SameByte(s[at + 1], t[1]);
    SameByte(s[at + 2], t[2]);
    SameByte(s[at + 3], t[3]);
    Window4(s, at);
  }

  lemma EightReads(s: seq<byte>, at: nat, n: nat)
    requires Eight(s, at, n) && n < LIMIT
    ensures UnLE(s[at..at + 8]) == n
  {
    hide UnLE, LE;
    FourIs(s, at, n);
    FourIs(s, at + 4, n / 0x1_0000_0000);
    LESplit(n);
    assert s[at..at + 8] == s[at..at + 4] + s[at + 4..at + 8];
    Widths();
    Unpacked(n, 8);
  }

  /** Any eight bytes hold some number below 2^64. */
  lemma EightHeld(s: seq<byte>, at: nat)
    requires at + 8 <= |s|
    ensures Eight(s, at, UnLE(s[at..at + 8])) && UnLE(s[at..at + 8]) < 0x1_0000_0000_0000_0000
  {
    hide Four, UnLE;
    Packed(s[at..at + 8]);
    EightAt(s, at, UnLE(s[at..at + 8]));
    Widths();
  }

  /** The table a super block points at: a length of zero means the rest of the file. */
  function Table(f: seq<byte>, tocOff: nat, recorded: nat): seq<byte> {
    if tocOff + recorded > |f| then []
    else if recorded == 0 then f[tocOff..]
    else f[tocOff..tocOff + recorded]
  }

  /** ls_open takes an existing file exactly when its super block names this format, its table lies
      in the file, the checksum matches and every record is taken. */
  lemma OpensExactly(f: seq<byte>, tocOff: nat, count: nat, fileEnd: nat, crc: Reg, recorded: nat)
    requires |f| >= 4096 && Eight(f, 16, tocOff) && Eight(f, 24, count) && Eight(f, 32, fileEnd)
    requires f[40..44] == PutReg(crc) && Eight(f, 48, recorded)
    requires tocOff < LIMIT && count < LIMIT && fileEnd < LIMIT && recorded < LIMIT
    ensures LoadImage(f).Some? <==>
              && f[..8] == [0x4c, 0x49, 0x42, 0x53, 0x50, 0x49, 0x4c, 0x4c] && f[8..12] == [2, 0, 0, 0]
              && 4096 <= tocOff && tocOff + recorded <= |f|
              && Crc32(Table(f, tocOff, recorded)) == crc
              && Parsed(Table(f, tocOff, recorded), count, fileEnd).Some?
    ensures LoadImage(f).Some? ==>
              LoadImage(f).value == Loaded(Parsed(Table(f, tocOff, recorded), count, fileEnd).value, fileEnd)
  {
    hide Eight, UnLE, Crc32, PutReg, GetReg, Parsed;
    EightReads(f, 16, tocOff);
    EightReads(f, 24, count);
    EightReads(f, 32, fileEnd);
    EightReads(f, 48, recorded);
    RegUnpacked(crc);
    Version(f);
    assert tocOff <= |f| ==> f[tocOff..tocOff + (|f| - tocOff)] == f[tocOff..];
  }

  lemma Version(f: seq<byte>)
    requires |f| >= 12
    ensures UnLE(f[8..12]) == VERSION <==> f[8..12] == [2, 0, 0, 0]
  {
    hide UnLE;
    ReadFour(f[8..12]);
  }

  // ------------------------------------------------------------------ records

  /** Where the fields of a record start. */
  ghost predicate LaidOut(b: seq<byte>, e: Entry, rest: seq<byte>) {
    var k, a, x := |e.key|, |e.attr|, |e.ext|;
    && |b| == 20 + k + a + 16 * x + |rest|
    && Four(b, 0, k) && b[4..4 + k] == e.key
    && Eight(b, 4 + k, e.size)
    && Four(b, 12 + k, a) && b[16 + k..16 + k + a] == e.attr
    && Four(b, 16 + k + a, x)
    && ExtentsAt(b, 20 + k + a, e.ext)
    && b[20 + k + a + 16 * x..] == rest
  }

  predicate ExtentsAt(b: seq<byte>, at: nat, ext: seq<Extent>) {
    forall i | 0 <= i < |ext| :: Eight(b, at + 16 * i, ext[i].foff) && Eight(b, at + 16 * i + 8, ext[i].len)
  }

  lemma EightInside(b: seq<byte>, at: nat, to: nat, p: nat, n: nat)
    requires at <= to <= |b| && Eight(b[at..to], p, n)
    ensures Eight(b, at + p, n)
  {
  }

  lemma {:induction false} ExtentBytes(ext: seq<Extent>, rest: seq<byte>)
    ensures var b := EmitExtents(ext, rest);
            |b| == 16 * |ext| + |rest| && ExtentsAt(b, 0, ext) && b[16 * |ext|..] == rest
  {
    hide LE, Eight, ExtentsAt;
    if ext == [] {
      NoExtents(rest);
    } else {
      var f, l, tail := LE(ext[0].foff, 8), LE(ext[0].len, 8), EmitExtents(ext[1..], rest);
      ExtentBytes(ext[1..], rest);
      OneMoreExtent(f, l, tail, ext);
      assert EmitExtents(ext, rest)[16 * |ext|..] == tail[16 * |ext[1..]|..];
    }
  }

  lemma NoExtents(b: seq<byte>)
    ensures ExtentsAt(b, 0, [])
  {
  }

  lemma OneMoreExtent(f: seq<byte>, l: seq<byte>, tail: seq<byte>, ext: seq<Extent>)
    requires ext != [] && f == LE(ext[0].foff, 8) && l == LE(ext[0].len, 8) && ExtentsAt(tail, 0, ext[1..])
    ensures ExtentsAt(f + (l + tail), 0, ext)
  {
    hide LE, Eight;
    var b := f + (l + tail);
    assert b[0..8] == f && b[8..16] == l && b[16..|b|] == tail;
    EightAt(b, 0, ext[0].foff);
    EightAt(b, 8, ext[0].len);
    forall i | 0 <= i < |ext| ensures Eight(b, 16 * i, ext[i].foff) && Eight(b, 16 * i + 8, ext[i].len) {
      if i > 0 {
        assert ext[1..][i - 1] == ext[i];
        EightInside(b, 16, |b|, 16 * (i - 1), ext[i].foff);
        EightInside(b, 16, |b|, 16 * (i - 1) + 8, ext[i].len);
      }
    }
  }

  /** The bytes a record takes in the table, field by field. */
  lemma RecordBytes(e: Entry, rest: seq<byte>)
    ensures LaidOut(Emit(e, rest), e, rest)
  {
    hide LE, Four, Eight, EmitExtents, ExtentsAt;
    var k, a, x := |e.key|, |e.attr|, |e.ext|;
    var b := Emit(e, rest);
    var tail := EmitExtents(e.ext, rest);
    ExtentBytes(e.ext, rest);
    FieldsOf(b, LE(k, 4), e.key, LE(e.size, 8), LE(a, 4), e.attr, LE(x, 4), tail);
    FourAt(b, 0, k);
    EightAt(b, 4 + k, e.size);
    FourAt(b, 12 + k, a);
    FourAt(b, 16 + k + a, x);
    ExtentsInside(b, 20 + k + a, e.ext);
    assert b[20 + k + a + 16 * x..] == b[20 + k + a..][16 * x..];
  }

  lemma ExtentsInside(b: seq<byte>, at: nat, ext: seq<Extent>)
    requires at <= |b| && ExtentsAt(b[at..], 0, ext)
    ensures ExtentsAt(b, at, ext)
  {
    hide Eight;
    assert b[at..|b|] == b[at..];
    forall i | 0 <= i < |ext| ensures Eight(b, at + 16 * i, ext[i].foff) && Eight(b, at + 16 * i + 8, ext[i].len) {
      EightInside(b, at, |b|, 16 * i, ext[i].foff);
      EightInside(b, at, |b|, 16 * i + 8, ext[i].len);
    }
  }

  lemma FieldsOf(b: seq<byte>, k4: seq<byte>, key: seq<byte>, s8: seq<byte>, a4: seq<byte>, attr: seq<byte>,
                 x4: seq<byte>, tail: seq<byte>)
    requires |k4| == |a4| == |x4| == 4 && |s8| == 8
    requires b == k4 + (key + (s8 + (a4 + (attr + (x4 + tail)))))
    ensures var k, a := |key|, |attr|;
            && |b| == 20 + k + a + |tail|
            && b[0..4] == k4 && b[4..4 + k] == key && b[4 + k..12 + k] == s8 && b[12 + k..16 + k] == a4
            && b[16 + k..16 + k + a] == attr && b[16 + k + a..20 + k + a] == x4 && b[20 + k + a..] == tail
  {
    var k, a := |key|, |attr|;
    assert b[0..] == b;
    Next(b, 0, k4, key + (s8 + (a4 + (attr + (x4 + tail)))));
    Next(b, 4, key, s8 + (a4 + (attr + (x4 + tail))));
    Next(b, 4 + k, s8, a4 + (attr + (x4 + tail)));
    Next(b, 12 + k, a4, attr + (x4 + tail));
    Next(b, 16 + k, attr, x4 + tail);
    Next(b, 16 + k + a, x4, tail);
  }

  lemma Next(b: seq<byte>, i: nat, x: seq<byte>, y: seq<byte>)
    requires i <= |b| && b[i..] == x + y
    ensures |b| == i + |x| + |y| && b[i..i + |x|] == x && b[i + |x|..] == y
  {
    assert b[i..i + |x|] == b[i..][..|x|];
    assert b[i + |x|..] == b[i..][|x|..];
  }

  // ------------------------------------------------------ what a loader takes

  /** `key` is `raw` up to its first NUL. */
  predicate UpToNul(raw: seq<byte>, key: seq<byte>) {
    |key| <= |raw| && key == raw[..|key|] && 0 !in key && (|key| == |raw| || raw[|key|] == 0)
  }

  lemma {:induction false} CStringIs(raw: seq<byte>, key: seq<byte>)
    ensures CString(raw) == key <==> UpToNul(raw, key)
  {
    hide UpToNul;
    if raw == [] || raw[0] == 0 {
      CutAtOnce(raw, key);
    } else {
      CutLater(raw, key);
      if key != [] {
        CStringIs(raw[1..], key[1..]);
        assert [key[0]] + key[1..] == key;
      }
    }
  }

  lemma CutAtOnce(raw: seq<byte>, key: seq<byte>)
    requires raw == [] || raw[0] == 0
    ensures UpToNul(raw, key) <==> key == []
  {
    if key != [] && |key| <= |raw| && key == raw[..|key|] {
      assert key[0] == 0;
    }
  }

  lemma CutLater(raw: seq<byte>, key: seq<byte>)
    requires raw != [] && raw[0] != 0
    ensures UpToNul(raw, key) <==> key != [] && key[0] == raw[0] && UpToNul(raw[1..], key[1..])
  {
    if key != [] {
      assert key == [key[0]] + key[1..];
      assert |key| <= |raw| ==> raw[..|key|] == [raw[0]] + raw[1..][..|key| - 1];
      assert |key| < |raw| ==> raw[|key|] == raw[1..][|key| - 1];
    }
  }

  /** A record the loader takes, as it stands in the table. */
  predicate Acceptable(e: Entry, fileEnd: nat) {
    && 1 <= |e.key| <= 255 && e.size < 0x1_0000_0000_0000_0000 && |e.attr| <= 256 && |e.ext| < 0x1_0000_0000
    && forall i | 0 <= i < |e.ext| :: TakenAt(e.ext[i].foff, e.ext[i].len, fileEnd)
  }

  /** Past the super block, and its end, which wraps at 64 bits, not past the heap's. */
  predicate TakenAt(foff: nat, len: nat, fileEnd: nat) {
    && 4096 <= foff < 0x1_0000_0000_0000_0000 && len < 0x1_0000_0000_0000_0000
    && (foff + len <= fileEnd || 0x1_0000_0000_0000_0000 <= foff + len <= 0x1_0000_0000_0000_0000 + fileEnd)
  }

  lemma TakenIs(x: Extent, fileEnd: nat)
    ensures Taken(x, fileEnd) <==> TakenAt(x.foff, x.len, fileEnd)
  {
    var sum := x.foff + x.len;
    if x.foff < LIMIT && x.len < LIMIT {
      assert sum % LIMIT == if sum < LIMIT then sum else sum - LIMIT;
    }
  }

  lemma NumGot(b: seq<byte>, w: nat)
    requires w <= |b|
    ensures GetNum(b, w).Some? && GetNum(b, w).value.1 == b[w..]
    ensures var n := GetNum(b, w).value.0; n < Pow256(w) && b == LE(n, w) + b[w..]
  {
    hide LE, UnLE, Pow256;
    Packed(b[..w]);
    assert b == b[..w] + b[w..];
  }

  /** Extents read are extents that were put. */
  lemma {:induction false} ExtentsRead(b: seq<byte>, n: nat, fileEnd: nat, ext: seq<Extent>, rest: seq<byte>)
    requires GetExtents(b, n, fileEnd) == Some((ext, rest))
    ensures |ext| == n && b == EmitExtents(ext, rest)
    ensures forall i | 0 <= i < |ext| :: Taken(ext[i], fileEnd)
    decreases n
  {
    hide LE, UnLE, Pow256;
    if n > 0 {
      Widths();
      NumGot(b, 8);
      NumGot(b[8..], 8);
      var foff, len := GetNum(b, 8).value.0, GetNum(b[8..], 8).value.0;
      assert b[8..][8..] == b[16..];
      var more := GetExtents(b[16..], n - 1, fileEnd).value;
      ExtentsRead(b[16..], n - 1, fileEnd, more.0, more.1);
      assert ext == [Extent(foff, len)] + more.0;
      assert ext[1..] == more.0;
    }
  }

  /** What is taken is a record that was put: the parser accepts nothing else. */
  lemma RecordRead(b: seq<byte>, fileEnd: nat) returns (raw: seq<byte>)
    requires GetEntry(b, fileEnd).Some?
    ensures var (e, rest) := GetEntry(b, fileEnd).value;
            UpToNul(raw, e.key) && Acceptable(e.(key := raw), fileEnd) && b == Emit(e.(key := raw), rest)
  {
    hide LE, UnLE, Pow256, GetTail, EmitExtents, UpToNul;
    Widths();
    NumGot(b, 4);
    var k := GetNum(b, 4).value.0;
    var b1 := b[4..];
    raw := b1[..k];
    var b2 := b1[k..];
    NumGot(b2, 8);
    var size := GetNum(b2, 8).value.0;
    var b3 := b2[8..];
    assert GetEntry(b, fileEnd) == GetTail(CString(raw), size, b3, fileEnd);
    TailRead(CString(raw), size, b3, fileEnd);
    CStringIs(raw, CString(raw));
    assert b1 == raw + b2;
  }

  lemma TailRead(key: Key, size: nat, b: seq<byte>, fileEnd: nat)
    requires GetTail(key, size, b, fileEnd).Some?
    ensures var (e, rest) := GetTail(key, size, b, fileEnd).value;
            && e.key == key && e.size == size && |e.attr| <= 256 && |e.ext| < 0x1_0000_0000
            && (forall i | 0 <= i < |e.ext| :: TakenAt(e.ext[i].foff, e.ext[i].len, fileEnd))
            && b == LE(|e.attr|, 4) + (e.attr + (LE(|e.ext|, 4) + EmitExtents(e.ext, rest)))
  {
    hide LE, UnLE, Pow256, GetExtents, EmitExtents, Taken, TakenAt;
    Widths();
    NumGot(b, 4);
    var a := GetNum(b, 4).value.0;
    var b1 := b[4..];
    var b2 := b1[a..];
    NumGot(b2, 4);
    var x := GetNum(b2, 4).value.0;
    var (ext, rest) := GetExtents(b2[4..], x, fileEnd).value;
    ExtentsRead(b2[4..], x, fileEnd, ext, rest);
    forall i | 0 <= i < |ext| ensures TakenAt(ext[i].foff, ext[i].len, fileEnd) {
      TakenIs(ext[i], fileEnd);
    }
    assert b1 == b1[..a] + b2;
  }

  /** The table holds `raws`, and `es` is what they say. */
  ghost predicate Holds(b: seq<byte>, raws: seq<Entry>, es: seq<Entry>, fileEnd: nat) {
    && |raws| == |es| && Serialised(raws) <= b
    && forall i | 0 <= i < |es| ::
         UpToNul(raws[i].key, es[i].key) && Acceptable(raws[i], fileEnd) && es[i] == raws[i].(key := es[i].key)
  }

  lemma RecordTaken(raw: Entry, e: Entry, rest: seq<byte>, fileEnd: nat)
    requires UpToNul(raw.key, e.key) && Acceptable(raw, fileEnd) && e == raw.(key := e.key)
    ensures GetEntry(Emit(raw, rest), fileEnd) == Some((e, rest))
  {
    hide GetEntry, Emit, UpToNul, Taken, TakenAt;
    forall i | 0 <= i < |raw.ext| ensures Taken(raw.ext[i], fileEnd) {
      TakenIs(raw.ext[i], fileEnd);
    }
    RecordBack(raw, rest, fileEnd);
    CStringIs(raw.key, e.key);
  }

  lemma {:induction false} TableTaken(b: seq<byte>, raws: seq<Entry>, es: seq<Entry>, fileEnd: nat)
    requires Holds(b, raws, es, fileEnd)
    ensures Parsed(b, |es|, fileEnd) == Some(es)
    decreases |es|
  {
    hide GetEntry, Emit, UpToNul, Acceptable;
    if es != [] {
      var more := Serialised(raws[1..]);
      var tail := b[|Serialised(raws)|..];
      EmitAppend(raws[0], more, tail);
      assert b == Emit(raws[0], more + tail);
      RecordTaken(raws[0], es[0], more + tail, fileEnd);
      assert Serialised(raws[1..]) <= more + tail;
      TableTaken(more + tail, raws[1..], es[1..], fileEnd);
      assert [es[0]] + es[1..] == es;
    }
  }

  lemma {:induction false} TableRead(b: seq<byte>, count: nat, fileEnd: nat) returns (raws: seq<Entry>)
    requires Parsed(b, count, fileEnd).Some?
    ensures Holds(b, raws, Parsed(b, count, fileEnd).value, fileEnd)
    ensures |Parsed(b, count, fileEnd).value| == count
    decreases count
  {
    hide GetEntry, Emit, UpToNul, Acceptable;
    raws := [];
    if count > 0 {
      var (e, rest) := GetEntry(b, fileEnd).value;
      var raw := RecordRead(b, fileEnd);
      var more := TableRead(rest, count - 1, fileEnd);
      raws := [e.(key := raw)] + more;
      assert raws[1..] == more;
      var tail := rest[|Serialised(more)|..];
      assert rest == Serialised(more) + tail;
      EmitAppend(raws[0], Serialised(more), tail);
    }
  }

  /** toc_load takes exactly the tables toc_serialise could have written, keys cut at a NUL. */
  lemma LoadsExactly(b: seq<byte>, es: seq<Entry>, fileEnd: nat)
    ensures Parsed(b, |es|, fileEnd) == Some(es) <==> exists raws :: Holds(b, raws, es, fileEnd)
  {
    hide Parsed, Holds;
    if Parsed(b, |es|, fileEnd) == Some(es) {
      var raws := TableRead(b, |es|, fileEnd);
      assert Holds(b, raws, es, fileEnd);
    }
    if exists raws :: Holds(b, raws, es, fileEnd) {
      var raws :| Holds(b, raws, es, fileEnd);
      TableTaken(b, raws, es, fileEnd);
    }
  }
}
